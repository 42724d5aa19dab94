/** RandomSubnet of pkg/proto/tcpip.go.  128-bit numbers are their bits, most significant first,
    which is the order of the bits of an address. */
module RandomSubnets {
  import opened Address

  type Bits = seq<bool>

  // ----- bytes and bits ------------------------------------------------------------------

  predicate Bit(b: bv8, j: nat) {
    if j == 0 then b & 0x80 != 0
    else if j == 1 then b & 0x40 != 0
    else if j == 2 then b & 0x20 != 0
    else if j == 3 then b & 0x10 != 0
    else if j == 4 then b & 0x08 != 0
    else if j == 5 then b & 0x04 != 0
    else if j == 6 then b & 0x02 != 0
    else b & 0x01 != 0
  }

  function Part(on: bool, b: bv8): bv8 {
    if on then b else 0
  }

  function PackByte(s: Bits): bv8
    requires |s| == 8
  {
    Part(s[0], 0x80) | Part(s[1], 0x40) | Part(s[2], 0x20) | Part(s[3], 0x10)
    | Part(s[4], 0x08) | Part(s[5], 0x04) | Part(s[6], 0x02) | Part(s[7], 0x01)
  }

  lemma BitOfPack(s: Bits, j: nat)
    requires |s| == 8 && j < 8
    ensures Bit(PackByte(s), j) == s[j]
  {
  }

  lemma BitOfAnd(x: bv8, y: bv8, j: nat)
    ensures Bit(x & y, j) <==> Bit(x, j) && Bit(y, j)
  {
  }

  lemma BitOfMaskByte(n: nat, j: nat)
    requires n <= 8 && j < 8
    ensures Bit(MaskByte(n), j) <==> j < n
  {
  }

  lemma BitsDetermineByte(x: bv8, y: bv8)
    requires forall j :: 0 <= j < 8 ==> Bit(x, j) == Bit(y, j)
    ensures x == y
  {
    assert Bit(x, 0) == Bit(y, 0) && Bit(x, 1) == Bit(y, 1) && Bit(x, 2) == Bit(y, 2) && Bit(x, 3) == Bit(y, 3);
    assert Bit(x, 4) == Bit(y, 4) && Bit(x, 5) == Bit(y, 5) && Bit(x, 6) == Bit(y, 6) && Bit(x, 7) == Bit(y, 7);
  }

  /** Bit i of a byte string. */
  predicate BitAt(a: Bytes, i: nat)
    requires i < 8 * |a|
  {
    Bit(a[i / 8], i % 8)
  }

  /** The number in sixteen big-endian bytes. */
  function FromBytes(a: Bytes): Bits
    requires |a| == 16
  {
    seq(128, i requires 0 <= i < 128 => BitAt(a, i))
  }

  /** The sixteen big-endian bytes of a number. */
  function ToBytes(x: Bits): Bytes
    requires |x| == 128
  {
    seq(16, k requires 0 <= k < 16 => PackByte(x[8 * k..8 * k + 8]))
  }

  lemma ToBytesBit(x: Bits, i: nat)
    requires |x| == 128 && i < 128
    ensures BitAt(ToBytes(x), i) == x[i]
  {
    BitOfPack(x[8 * (i / 8)..8 * (i / 8) + 8], i % 8);
  }

  lemma MaskBit(ones: nat, i: nat)
    requires ones <= 128 && i < 128
    ensures BitAt(MaskBytes(ones, 16), i) <==> i < ones
  {
    BitOfMaskByte(OnesInByte(ones, i / 8), i % 8);
  }

  // ----- 128-bit operations --------------------------------------------------------------

  function Max(): (x: Bits)
    ensures |x| == 128
  {
    seq(128, i => true)
  }

  function And(x: Bits, y: Bits): (z: Bits)
    requires |x| == |y|
    ensures |z| == |x|
  {
    seq(|x|, i requires 0 <= i < |x| => x[i] && y[i])
  }

  function Xor(x: Bits, y: Bits): (z: Bits)
    requires |x| == |y|
    ensures |z| == |x|
  {
    seq(|x|, i requires 0 <= i < |x| => x[i] != y[i])
  }

  function Rsh(x: Bits, n: nat): (z: Bits)
    ensures |z| == |x|
  {
    seq(|x|, i requires 0 <= i < |x| => i >= n && x[i - n])
  }

  function Lsh(x: Bits, n: nat): (z: Bits)
    ensures |z| == |x|
  {
    seq(|x|, i requires 0 <= i < |x| => i + n < |x| && x[i + n])
  }

  datatype Sum = Sum(carry: bool, bits: Bits)

  /** Addition with carries from the least significant bit up; the source's addition panics when
      a carry leaves the top. */
  function Add(x: Bits, y: Bits): (s: Sum)
    requires |x| == |y|
    ensures |s.bits| == |x|
  {
    if x == [] then Sum(false, [])
    else
      var low := Add(x[1..], y[1..]);
      Sum((x[0] && y[0]) || (x[0] && low.carry) || (y[0] && low.carry),
          [(x[0] != y[0]) != low.carry] + low.bits)
  }

  /** Numbers without a common bit add without carries. */
  lemma {:induction false} DisjointAdd(x: Bits, y: Bits)
    requires |x| == |y| && forall i :: 0 <= i < |x| ==> !(x[i] && y[i])
    ensures !Add(x, y).carry
    ensures forall i :: 0 <= i < |x| ==> Add(x, y).bits[i] == (x[i] || y[i])
  {
    if x != [] {
      forall i | 0 <= i < |x[1..]| ensures !(x[1..][i] && y[1..][i]) {
        assert !(x[i + 1] && y[i + 1]);
      }
      DisjointAdd(x[1..], y[1..]);
      forall i | 0 <= i < |x| ensures Add(x, y).bits[i] == (x[i] || y[i]) {
        if i > 0 {
          assert Add(x, y).bits[i] == Add(x[1..], y[1..]).bits[i - 1];
        }
      }
    }
  }

  // ----- the operation -------------------------------------------------------------------

  function KeepMask(keep: nat): (km: Bits)
    ensures |km| == 128
  {
    Rsh(Max(), keep)
  }

  function Kept(ip: IP, keep: nat): (kv: Bits)
    requires |ip| == 16
    ensures |kv| == 128
  {
    And(FromBytes(ip), Xor(KeepMask(keep), Max()))
  }

  type Uint = x: nat | x < 0x1_0000_0000_0000_0000

  /** 128 - prefix in unsigned arithmetic. */
  function ShiftFor(prefix: Uint): nat {
    if prefix <= 128 then 128 - prefix else 0x1_0000_0000_0000_0000 + 128 - prefix
  }

  function Randomized(random: Bits, keep: nat, prefix: Uint): (rv: Bits)
    requires |random| == 128
    ensures |rv| == 128
  {
    And(And(random, Lsh(Max(), ShiftFor(prefix))), KeepMask(keep))
  }

  /** The sum of the kept part of the address and the random part. */
  function Mixed(ip: IP, keep: nat, prefix: Uint, random: Bits): (s: Sum)
    requires |ip| == 16 && |random| == 128
    ensures |s.bits| == 128
  {
    Add(Kept(ip, keep), Randomized(random, keep, prefix))
  }

  /** Bit i of the mixed address. */
  predicate Wanted(ip: IP, keep: nat, prefix: nat, random: Bits, i: nat)
    requires |ip| == 16 && |random| == 128 && i < 128
  {
    if i < keep then BitAt(ip, i) else i < prefix && random[i]
  }

  lemma MixedBits(ip: IP, keep: nat, prefix: Uint, random: Bits)
    requires |ip| == 16 && |random| == 128
    ensures !Mixed(ip, keep, prefix, random).carry
    ensures prefix <= 128 ==> forall i :: 0 <= i < 128 ==>
            Mixed(ip, keep, prefix, random).bits[i] == Wanted(ip, keep, prefix, random, i)
  {
    var km := KeepMask(keep);
    var kv := Kept(ip, keep);
    var rv := Randomized(random, keep, prefix);
    forall i | 0 <= i < 128
      ensures kv[i] == (i < keep && BitAt(ip, i)) && (rv[i] ==> i >= keep)
      ensures prefix <= 128 ==> rv[i] == (keep <= i < prefix && random[i])
    {
      assert km[i] == (i >= keep);
    }
    DisjointAdd(kv, rv);
  }

  lemma MaskedBit(a: Bytes, ones: nat, i: nat)
    requires |a| == 16 && ones <= 128 && i < 128
    ensures BitAt(MaskAddress(a, MaskBytes(ones, 16)), i) <==> BitAt(a, i) && i < ones
  {
    BitOfAnd(a[i / 8], MaskBytes(ones, 16)[i / 8], i % 8);
    MaskBit(ones, i);
  }

  lemma SameBitsSameBytes(a: Bytes, b: Bytes)
    requires |a| == |b| == 16 && forall i :: 0 <= i < 128 ==> BitAt(a, i) == BitAt(b, i)
    ensures a == b
  {
    forall k | 0 <= k < 16 ensures a[k] == b[k] {
      forall j | 0 <= j < 8 ensures Bit(a[k], j) == Bit(b[k], j) {
        assert BitAt(a, 8 * k + j) == BitAt(b, 8 * k + j);
      }
      BitsDetermineByte(a[k], b[k]);
    }
  }

  /** Masking a mixed address changes nothing when no more is kept than the prefix holds. */
  lemma MaskingChangesNothing(ip: IP, keep: nat, prefix: nat, random: Bits)
    requires |ip| == 16 && |random| == 128 && keep <= prefix <= 128
    ensures MaskAddress(ToBytes(Mixed(ip, keep, prefix, random).bits), MaskBytes(prefix, 16)) ==
            ToBytes(Mixed(ip, keep, prefix, random).bits)
  {
    var x := Mixed(ip, keep, prefix, random).bits;
    var a := ToBytes(x);
    MixedBits(ip, keep, prefix, random);
    forall i | 0 <= i < 128 ensures BitAt(MaskAddress(a, MaskBytes(prefix, 16)), i) == BitAt(a, i) {
      MaskedBit(a, prefix, i);
      ToBytesBit(x, i);
    }
    SameBitsSameBytes(MaskAddress(a, MaskBytes(prefix, 16)), a);
  }

  /** RandomSubnet, with the random number as a parameter.  The addition never overflows.  Up to
      the prefix length the first keep bits are the address's own and the others random, what
      lies beyond is zero, and the result is a CIDR subnet of the wanted length; a length above
      128 gives the empty subnet. */
  method RandomSubnet(ip: IP, keep: Uint, prefix: Uint, random: Bits) returns (s: Subnet)
    requires |ip| == 16 && |random| == 128
    ensures !Mixed(ip, keep, prefix, random).carry
    ensures prefix > 128 ==> s == []
    ensures prefix <= 128 ==> IsCIDR(s) && |s| == 32 && Prefix(s) == prefix
    ensures prefix <= 128 ==> forall i :: 0 <= i < 128 ==>
            BitAt(SubnetIP(s), i) == (i < prefix && Wanted(ip, keep, prefix, random, i))
  {
    var sum := Mixed(ip, keep, prefix, random);
    var ipBytes := ToBytes(sum.bits);
    s := NewSubnet(ipBytes, CIDRMask(prefix, 128));
    MixedBits(ip, keep, prefix, random);
    if prefix <= 128 {
      MakeSubnetIsCIDR(ipBytes, prefix);
      assert SubnetIP(s) == MaskAddress(ipBytes, MaskBytes(prefix, 16));
      forall i | 0 <= i < 128 ensures BitAt(SubnetIP(s), i) == (i < prefix && Wanted(ip, keep, prefix, random, i)) {
        MaskedBit(ipBytes, prefix, i);
        ToBytesBit(sum.bits, i);
      }
    }
  }
}
