/**
  The admission key of a peer address (crates/qsh-core/src/admission.rs).

  An IPv4 address is keyed whole, an IPv6 address by its top 64 bits, and an
  IPv4-mapped IPv6 address (section 2.5.5.2 of RFC 4291) as the IPv4 address
  it carries.
 */
module SourceKeys {

  /** Addresses in 16-bit groups: `a.b` and `c.d` of an IPv4 address, the eight segments of an IPv6 one. */
  datatype IpAddr =
    | V4(ab: bv16, cd: bv16)
    | V6(s0: bv16, s1: bv16, s2: bv16, s3: bv16, s4: bv16, s5: bv16, s6: bv16, s7: bv16)

  datatype SourceKey = V4Key(addr: bv32) | V6Key(prefix: bv64)

  predicate IsMapped(a: IpAddr) {
    a.V6? && a.s0 == 0 && a.s1 == 0 && a.s2 == 0 && a.s3 == 0 && a.s4 == 0 && a.s5 == 0xffff
  }

  function ToCanonical(a: IpAddr): IpAddr {
    if IsMapped(a) then V4(a.s6, a.s7) else a
  }

  function Pack32(ab: bv16, cd: bv16): bv32 {
    ((ab as bv32) << 16) | (cd as bv32)
  }

  function Pack64(s0: bv16, s1: bv16, s2: bv16, s3: bv16): bv64 {
    ((s0 as bv64) << 48) | ((s1 as bv64) << 32) | ((s2 as bv64) << 16) | (s3 as bv64)
  }

  function FromAddr(a: IpAddr): SourceKey {
    match ToCanonical(a)
    case V4(ab, cd) => V4Key(Pack32(ab, cd))
    case V6(s0, s1, s2, s3, _, _, _, _) => V6Key(Pack64(s0, s1, s2, s3))
  }

  /** `a` is the IPv4 address `x.y`, plain or mapped. */
  predicate IsIPv4(a: IpAddr, x: bv16, y: bv16) {
    a == V4(x, y) || a == V6(0, 0, 0, 0, 0, 0xffff, x, y)
  }

  /** `a` stands for no IPv4 address. */
  ghost predicate IsOtherIPv6(a: IpAddr) { a.V6? && forall x, y :: !IsIPv4(a, x, y) }

  predicate Same64(a: IpAddr, b: IpAddr)
    requires a.V6? && b.V6?
  {
    a.s0 == b.s0 && a.s1 == b.s1 && a.s2 == b.s2 && a.s3 == b.s3
  }

  lemma Pack32Injective(a0: bv16, a1: bv16, b0: bv16, b1: bv16)
    requires Pack32(a0, a1) == Pack32(b0, b1)
    ensures a0 == b0 && a1 == b1
  {
  }

  lemma Pack64Injective(a0: bv16, a1: bv16, a2: bv16, a3: bv16, b0: bv16, b1: bv16, b2: bv16, b3: bv16)
    requires Pack64(a0, a1, a2, a3) == Pack64(b0, b1, b2, b3)
    ensures a0 == b0 && a1 == b1 && a2 == b2 && a3 == b3
  {
  }

  lemma IPv4Key(a: IpAddr, x: bv16, y: bv16)
    requires IsIPv4(a, x, y)
    ensures FromAddr(a) == V4Key(Pack32(x, y))
  {
    hide Pack32, Pack64;
  }

  lemma IPv6Key(a: IpAddr)
    requires IsOtherIPv6(a)
    ensures FromAddr(a) == V6Key(Pack64(a.s0, a.s1, a.s2, a.s3))
  {
    hide Pack32, Pack64;
    assert !IsIPv4(a, a.s6, a.s7);
  }

  /** A mapped address has the key of the plain one, and different IPv4 addresses have different keys. */
  lemma IPv4Keys(a: IpAddr, b: IpAddr, x: bv16, y: bv16, x': bv16, y': bv16)
    requires IsIPv4(a, x, y) && IsIPv4(b, x', y')
    ensures FromAddr(a).V4Key? && (FromAddr(a) == FromAddr(b) <==> x == x' && y == y')
  {
    hide FromAddr, Pack32;
    IPv4Key(a, x, y);
    IPv4Key(b, x', y');
    if FromAddr(a) == FromAddr(b) {
      Pack32Injective(x, y, x', y');
    }
  }

  /** Any other IPv6 address is keyed by its first four segments. */
  lemma IPv6Keys(a: IpAddr, b: IpAddr)
    requires IsOtherIPv6(a) && IsOtherIPv6(b)
    ensures FromAddr(a).V6Key? && (FromAddr(a) == FromAddr(b) <==> Same64(a, b))
  {
    hide FromAddr, Pack64;
    IPv6Key(a);
    IPv6Key(b);
    if FromAddr(a) == FromAddr(b) {
      Pack64Injective(a.s0, a.s1, a.s2, a.s3, b.s0, b.s1, b.s2, b.s3);
    }
  }

  /**
    Two peers share a key in exactly two cases: both stand for one IPv4
    address, plain or mapped, or both are other IPv6 peers in one /64. In
    particular an IPv4 key is never an IPv6 key.
   */
  lemma KeysShared(a: IpAddr, b: IpAddr)
    ensures FromAddr(a) == FromAddr(b) <==>
            || (exists x, y :: IsIPv4(a, x, y) && IsIPv4(b, x, y))
            || (IsOtherIPv6(a) && IsOtherIPv6(b) && Same64(a, b))
  {
    hide FromAddr;
    if IsOtherIPv6(a) {
      IPv6Keys(a, a);
      if IsOtherIPv6(b) {
        IPv6Keys(a, b);
      } else {
        var x', y' := IPv4Of(b);
        IPv4Keys(b, b, x', y', x', y');
      }
    } else {
      var x, y := IPv4Of(a);
      if IsOtherIPv6(b) {
        IPv4Keys(a, a, x, y, x, y);
        IPv6Keys(b, b);
      } else {
        var x', y' := IPv4Of(b);
        IPv4Keys(a, b, x, y, x', y');
        forall p, q | IsIPv4(a, p, q) ensures p == x && q == y {
        }
      }
    }
  }

  lemma IPv4Of(a: IpAddr) returns (x: bv16, y: bv16)
    requires !IsOtherIPv6(a)
    ensures IsIPv4(a, x, y)
  {
    x, y := if a.V4? then a.ab else a.s6, if a.V4? then a.cd else a.s7;
    assert a.V4? ==> a == V4(a.ab, a.cd);
  }
}
