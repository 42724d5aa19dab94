/** Addresses, netmasks and subnets: pkg/proto/tcpip.go.

    An address, a mask and a subnet are byte strings, as in the source.  A subnet is the
    network address followed by its mask.  Four- and sixteen-byte addresses are both
    modelled, including the matching of IPv4-mapped IPv6 addresses done by Go's net package. */
module Address {

  type Bytes = seq<bv8>
  type IP = Bytes
  type Mask = Bytes
  type Subnet = Bytes

  predicate IsAddress(a: IP) {
    |a| == 4 || |a| == 16
  }

  // ----- masks ---------------------------------------------------------------------------

  /** A byte whose n leading bits are ones. */
  function MaskByte(n: nat): bv8 {
    if n == 0 then 0x00
    else if n == 1 then 0x80
    else if n == 2 then 0xc0
    else if n == 3 then 0xe0
    else if n == 4 then 0xf0
    else if n == 5 then 0xf8
    else if n == 6 then 0xfc
    else if n == 7 then 0xfe
    else 0xff
  }

  /** The number of leading one bits of a byte. */
  function LeadingOnes(b: bv8): (n: nat)
    ensures n <= 8
  {
    if b & 0x80 == 0 then 0
    else if b & 0x40 == 0 then 1
    else if b & 0x20 == 0 then 2
    else if b & 0x10 == 0 then 3
    else if b & 0x08 == 0 then 4
    else if b & 0x04 == 0 then 5
    else if b & 0x02 == 0 then 6
    else if b & 0x01 == 0 then 7
    else 8
  }

  /** How many of `ones` leading one bits fall into byte i. */
  function OnesInByte(ones: int, i: int): nat {
    if ones <= 8 * i then 0 else if ones >= 8 * i + 8 then 8 else ones - 8 * i
  }

  function MaskBytes(ones: int, n: nat): Mask {
    seq(n, i => MaskByte(OnesInByte(ones, i)))
  }

  /** The mask with the given number of leading ones, or the nil mask when the arguments do
      not describe an IPv4 or IPv6 mask. */
  function CIDRMask(ones: int, bits: int): Mask {
    if (bits != 32 && bits != 128) || ones < 0 || ones > bits then [] else MaskBytes(ones, bits / 8)
  }

  /** Mask.Prefix as a sum over the bytes. */
  function MaskPrefix(m: Mask): nat {
    if m == [] then 0 else MaskPrefix(m[..|m| - 1]) + LeadingOnes(m[|m| - 1])
  }

  /** Mask.Prefix: the loop of the source. */
  method ComputeMaskPrefix(m: Mask) returns (p: nat)
    ensures p == MaskPrefix(m)
    ensures forall ones: nat, n: nat | ones <= 8 * n && m == MaskBytes(ones, n) :: p == ones
  {
    p := 0;
    for i := 0 to |m|
      invariant p == MaskPrefix(m[..i])
    {
      assert m[..i + 1][..i] == m[..i];
      p := p + LeadingOnes(m[i]);
    }
    assert m[..|m|] == m;
    forall ones: nat, n: nat | ones <= 8 * n && m == MaskBytes(ones, n) ensures p == ones {
      PrefixOfMaskBytes(ones, n);
    }
  }

  lemma LeadingOnesOfMaskByte(n: nat)
    requires n <= 8
    ensures LeadingOnes(MaskByte(n)) == n
  {
  }

  lemma {:induction false} PrefixOfMaskBytes(ones: nat, n: nat)
    ensures MaskPrefix(MaskBytes(ones, n)) == if ones <= 8 * n then ones else 8 * n
  {
    if n > 0 {
      var m := MaskBytes(ones, n);
      assert m[..n - 1] == MaskBytes(ones, n - 1);
      PrefixOfMaskBytes(ones, n - 1);
      LeadingOnesOfMaskByte(OnesInByte(ones, n - 1));
    }
  }

  // ----- subnets -------------------------------------------------------------------------

  predicate WellSized(s: Subnet) {
    |s| == 8 || |s| == 32
  }

  function SubnetIP(s: Subnet): IP {
    if WellSized(s) then s[..|s| / 2] else []
  }

  function SubnetMask(s: Subnet): Mask {
    if WellSized(s) then s[|s| / 2..] else []
  }

  function Prefix(s: Subnet): nat {
    MaskPrefix(SubnetMask(s))
  }

  function MaskAddress(a: IP, m: Mask): IP
    requires |a| == |m|
  {
    seq(|a|, i requires 0 <= i < |a| => a[i] & m[i])
  }

  /** The network part of an address under a mask, followed by the mask. */
  function MakeSubnet(a: IP, m: Mask): Subnet {
    if |a| != |m| then [] else MaskAddress(a, m) + m
  }

  /** NewSubnet: the byte buffer is filled in place. */
  method NewSubnet(a: IP, m: Mask) returns (s: Subnet)
    ensures s == MakeSubnet(a, m)
    ensures forall ones: nat ::
              IsAddress(a) && ones <= 8 * |a| && m == CIDRMask(ones, 8 * |a|)
              ==> IsCIDR(s) && Prefix(s) == ones && (Contains(s, a) <==> !(IsMapped(a) && ones < 96))
  {
    if |a| != |m| {
      s := [];
    } else {
      var netAddr := new bv8[|a|];
      for i := 0 to |a|
        invariant forall j :: 0 <= j < i ==> netAddr[j] == a[j] & m[j]
      {
        netAddr[i] := a[i] & m[i];
      }
      assert netAddr[..] == MaskAddress(a, m);
      s := netAddr[..] + m;
    }
    forall ones: nat | IsAddress(a) && ones <= 8 * |a| && m == CIDRMask(ones, 8 * |a|)
      ensures IsCIDR(s) && Prefix(s) == ones && (Contains(s, a) <==> !(IsMapped(a) && ones < 96))
    {
      MakeSubnetIsCIDR(a, ones);
      OwnSubnetContains(a, ones);
    }
  }

  /** NewHostOnlySubnet. */
  function HostOnly(a: IP): Subnet {
    a + seq(|a|, i => 0xff)
  }

  /** The subnets in CIDR form: a prefix mask, and no address bit outside the mask.  These are
      what NewSubnet makes from a CIDR mask and what ParseCIDR accepts. */
  predicate IsCIDR(s: Subnet) {
    && WellSized(s)
    && SubnetMask(s) == MaskBytes(Prefix(s), |s| / 2)
    && forall i :: 0 <= i < |s| / 2 ==> SubnetIP(s)[i] & SubnetMask(s)[i] == SubnetIP(s)[i]
  }

  // ----- matching ------------------------------------------------------------------------

  predicate IsMapped(a: IP) {
    |a| == 16 && (forall i :: 0 <= i < 10 ==> a[i] == 0) && a[10] == 0xff && a[11] == 0xff
  }

  /** The four-byte form of an IPv4 or IPv4-mapped address, any other address unchanged. */
  function Shortened(a: IP): IP {
    if IsMapped(a) then a[12..] else a
  }

  predicate MatchesUnder(network: IP, mask: Mask, a: IP) {
    |network| == |mask| == |a| && forall i :: 0 <= i < |a| ==> network[i] & mask[i] == a[i] & mask[i]
  }

  /** Subnet.Contains, for a non-empty address. */
  predicate Contains(s: Subnet, a: IP) {
    var network := Shortened(SubnetIP(s));
    var mask := if |network| == 4 && |SubnetMask(s)| == 16 then SubnetMask(s)[12..] else SubnetMask(s);
    WellSized(s) && MatchesUnder(network, mask, Shortened(a))
  }

  // ----- properties ----------------------------------------------------------------------

  lemma MakeSubnetIsCIDR(a: IP, ones: nat)
    requires IsAddress(a) && ones <= 8 * |a|
    ensures IsCIDR(MakeSubnet(a, CIDRMask(ones, 8 * |a|)))
    ensures Prefix(MakeSubnet(a, CIDRMask(ones, 8 * |a|))) == ones
  {
    var m := CIDRMask(ones, 8 * |a|);
    var s := MakeSubnet(a, m);
    assert SubnetIP(s) == MaskAddress(a, m);
    assert SubnetMask(s) == m;
    PrefixOfMaskBytes(ones, |a|);
    forall i | 0 <= i < |a| ensures SubnetIP(s)[i] & m[i] == SubnetIP(s)[i] {
      AndIdempotent(a[i], m[i]);
    }
  }

  lemma AndIdempotent(x: bv8, y: bv8)
    ensures (x & y) & y == x & y
  {
  }

  lemma FullMaskByte(n: nat)
    requires n <= 8 && MaskByte(n) == 0xff
    ensures n == 8
  {
  }

  lemma AndIsFull(x: bv8, y: bv8)
    requires x & y == x && x == 0xff
    ensures y == 0xff
  {
  }

  lemma AndFull(x: bv8)
    ensures x & 0xff == x
  {
  }

  lemma MappedNeedsLongPrefix(s: Subnet)
    requires IsCIDR(s) && |s| == 32 && IsMapped(SubnetIP(s))
    ensures Prefix(s) >= 96
  {
    AndIsFull(SubnetIP(s)[11], SubnetMask(s)[11]);
    assert SubnetMask(s)[11] == MaskByte(OnesInByte(Prefix(s), 11));
    FullMaskByte(OnesInByte(Prefix(s), 11));
  }

  lemma LongPrefixKeepsFront(a: IP, ones: nat, i: nat)
    requires |a| == 16 && 96 <= ones <= 128 && i < 12
    ensures MaskAddress(a, MaskBytes(ones, 16))[i] == a[i]
  {
    assert MaskBytes(ones, 16)[i] == 0xff;
    AndFull(a[i]);
  }

  /** An address lies in the subnet made from it, except when it is IPv4-mapped and the mask
      cuts the mapping prefix: then the subnet is an IPv6 one and the address counts as IPv4. */
  lemma OwnSubnetContains(a: IP, ones: nat)
    requires IsAddress(a) && ones <= 8 * |a|
    ensures Contains(MakeSubnet(a, CIDRMask(ones, 8 * |a|)), a) <==> !(IsMapped(a) && ones < 96)
  {
    var m := MaskBytes(ones, |a|);
    var s := MakeSubnet(a, m);
    MakeSubnetIsCIDR(a, ones);
    assert SubnetIP(s) == MaskAddress(a, m) && SubnetMask(s) == m;
    MaskedMatches(a, m);
    if |a| == 16 && ones >= 96 {
      forall i | 0 <= i < 12 ensures MaskAddress(a, m)[i] == a[i] {
        LongPrefixKeepsFront(a, ones, i);
      }
      assert IsMapped(SubnetIP(s)) <==> IsMapped(a);
    } else if |a| == 16 && IsMapped(SubnetIP(s)) {
      MappedNeedsLongPrefix(s);
      assert false;
    }
  }

  /** The smallest such case: 0.0.0.0 in its IPv4-mapped form is not in its own /64. */
  lemma MappedOutsideOwnSubnet()
    ensures var a: IP := [0, 0, 0, 0, 0, 0, 0, 0, 0, 0, 0xff, 0xff, 0, 0, 0, 0];
            !Contains(MakeSubnet(a, CIDRMask(64, 128)), a)
  {
    var a: IP := [0, 0, 0, 0, 0, 0, 0, 0, 0, 0, 0xff, 0xff, 0, 0, 0, 0];
    assert IsMapped(a);
    OwnSubnetContains(a, 64);
  }

  lemma MaskedMatches(a: IP, m: Mask)
    requires |a| == |m|
    ensures MatchesUnder(MaskAddress(a, m), m, a)
    ensures |a| == 16 ==> MatchesUnder(MaskAddress(a, m)[12..], m[12..], a[12..])
  {
    forall i | 0 <= i < |a| ensures MaskAddress(a, m)[i] & m[i] == a[i] & m[i] {
      AndIdempotent(a[i], m[i]);
    }
  }

  /** Two CIDR subnets of equal prefix length that contain one address are the same subnet, so
      a longest match does not depend on the order in which a table is scanned. */
  lemma SamePrefixSameSubnet(s: Subnet, t: Subnet, a: IP)
    requires IsCIDR(s) && IsCIDR(t) && Prefix(s) == Prefix(t)
    requires Contains(s, a) && Contains(t, a)
    ensures s == t
  {
    if |s| < |t| {
      MixedSizesDiffer(s, t, a);
    } else if |t| < |s| {
      MixedSizesDiffer(t, s, a);
    } else {
      SameSizeAndPrefix(s, t, a);
    }
  }

  lemma MixedSizesDiffer(s: Subnet, t: Subnet, a: IP)
    requires IsCIDR(s) && IsCIDR(t) && |s| < |t| && Contains(s, a) && Contains(t, a)
    ensures Prefix(s) < Prefix(t)
  {
    MappedNeedsLongPrefix(t);
    PrefixOfMaskBytes(Prefix(s), 4);
  }

  lemma SameSizeSameForm(s: Subnet, t: Subnet, a: IP)
    requires IsCIDR(s) && IsCIDR(t) && |s| == |t| && Contains(s, a) && Contains(t, a)
    ensures IsMapped(SubnetIP(s)) <==> IsMapped(SubnetIP(t))
  {
  }

  lemma SameSizeAndPrefix(s: Subnet, t: Subnet, a: IP)
    requires IsCIDR(s) && IsCIDR(t) && Prefix(s) == Prefix(t) && |s| == |t|
    requires Contains(s, a) && Contains(t, a)
    ensures s == t
  {
    SameSizeSameForm(s, t, a);
    forall i | 0 <= i < |s| / 2 ensures SubnetIP(s)[i] == SubnetIP(t)[i] {
      SameByte(s, t, a, i);
    }
    assert s == SubnetIP(s) + SubnetMask(s);
    assert t == SubnetIP(t) + SubnetMask(t);
  }

  lemma SameByte(s: Subnet, t: Subnet, a: IP, i: nat)
    requires IsCIDR(s) && IsCIDR(t) && SubnetMask(s) == SubnetMask(t)
    requires Contains(s, a) && Contains(t, a)
    requires IsMapped(SubnetIP(s)) <==> IsMapped(SubnetIP(t))
    requires i < |s| / 2 == |t| / 2
    ensures SubnetIP(s)[i] == SubnetIP(t)[i]
  {
    if IsMapped(SubnetIP(s)) {
      if i >= 12 {
        assert Shortened(SubnetIP(s))[i - 12] == SubnetIP(s)[i];
        assert Shortened(SubnetIP(t))[i - 12] == SubnetIP(t)[i];
        assert SubnetMask(s)[12..][i - 12] == SubnetMask(s)[i];
      }
    } else {
      assert Shortened(SubnetIP(s))[i] == SubnetIP(s)[i];
    }
  }

  lemma PrefixBound(s: Subnet)
    requires IsCIDR(s)
    ensures Prefix(s) <= 4 * |s| <= 128
  {
    PrefixOfMaskBytes(Prefix(s), |s| / 2);
  }

  /** A host-only subnet has the longest prefix and contains its own address in every
      notation, and no other address. */
  lemma HostOnlyIsExact(a: IP)
    requires IsAddress(a)
    ensures HostOnly(a) == MakeSubnet(a, CIDRMask(8 * |a|, 8 * |a|))
    ensures IsCIDR(HostOnly(a)) && Prefix(HostOnly(a)) == 8 * |a| && SubnetIP(HostOnly(a)) == a
    ensures forall b {:trigger Contains(HostOnly(a), b)} :: Contains(HostOnly(a), b) <==> Shortened(a) == Shortened(b)
  {
    var m := CIDRMask(8 * |a|, 8 * |a|);
    var full: Mask := seq(|a|, i => 0xff);
    assert m == full;
    assert MaskAddress(a, m) == a by {
      forall i | 0 <= i < |a| ensures a[i] & m[i] == a[i] { AndFull(a[i]); }
    }
    MakeSubnetIsCIDR(a, 8 * |a|);
    assert SubnetIP(HostOnly(a)) == a && SubnetMask(HostOnly(a)) == m;
    forall b ensures Contains(HostOnly(a), b) <==> Shortened(a) == Shortened(b) {
      FullMaskMatch(Shortened(a), if |Shortened(a)| == 4 && |m| == 16 then m[12..] else m, Shortened(b));
    }
  }

  lemma FullMaskMatch(a: IP, m: Mask, b: IP)
    requires |a| == |m| && forall i :: 0 <= i < |m| ==> m[i] == 0xff
    ensures MatchesUnder(a, m, b) <==> a == b
  {
    if MatchesUnder(a, m, b) {
      forall i | 0 <= i < |a| ensures a[i] == b[i] {
        assert a[i] & m[i] == b[i] & m[i];
        AndFull(a[i]);
        AndFull(b[i]);
      }
    }
  }

  lemma HostOnlyInjective(a: IP, b: IP)
    ensures HostOnly(a) == HostOnly(b) <==> a == b
  {
    if HostOnly(a) == HostOnly(b) {
      assert |HostOnly(a)| == 2 * |a| && |HostOnly(b)| == 2 * |b|;
      assert a == HostOnly(a)[..|a|] && b == HostOnly(b)[..|b|];
    }
  }

  lemma ShortenedInjective(a: IP, b: IP)
    requires |a| == |b| == 16 && Shortened(a) == Shortened(b)
    ensures a == b
  {
    if IsMapped(a) {
      assert IsMapped(b);
      assert a == a[..12] + a[12..] && b == b[..12] + b[12..];
      assert a[..12] == b[..12];
    }
  }

  /** Among sixteen-byte addresses a host-only subnet contains exactly its own address. */
  lemma HostOnlyContains(a: IP, b: IP)
    requires |a| == |b| == 16
    ensures Contains(HostOnly(a), b) <==> a == b
  {
    HostOnlyIsExact(a);
    if Contains(HostOnly(a), b) {
      ShortenedInjective(a, b);
    }
  }
}
