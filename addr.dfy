/**
 * Addresses as fixed-width big-endian byte strings, and the canonical form the
 * trie works on: which family's root an address belongs to and the bit path
 * it spells out from that root.
 */
module Addr {
  import opened Wrappers

  type Byte = bv8

  /** The two address families; each has its own trie root. */
  datatype Family = V4 | V6

  /** Number of address bits of a family: the depth of its trie is bounded by it. */
  function Width(f: Family): nat {
    if f == V4 then 32 else 128
  }

  /**
   * A network as Go's net.IPNet carries it: the address bytes and the prefix
   * length that Mask.Size() yields for its mask.
   */
  datatype IPNet = IPNet(ip: seq<Byte>, prefixLen: nat)

  /** The first twelve bytes of an IPv4-mapped IPv6 address (::ffff:0:0/96, section 2.5.5.2 of RFC 4291). */
  const V4InV6Prefix: seq<Byte> := [0, 0, 0, 0, 0, 0, 0, 0, 0, 0, 0xff, 0xff]

  predicate IsMapped(ip: seq<Byte>) {
    |ip| == 16 && ip[..12] == V4InV6Prefix
  }

  /** Go's net.IP.To4: a 4-byte address, or the last four bytes of an IPv4-mapped one. */
  function To4(ip: seq<Byte>): (r: Option<seq<Byte>>)
    ensures r.Some? <==> |ip| == 4 || IsMapped(ip)
    ensures r.Some? ==> |r.value| == 4 && r.value == ip[|ip| - 4..]
  {
    if |ip| == 4 then Some(ip)
    else if IsMapped(ip) then Some(ip[12..])
    else None
  }

  /** Go's net.IP.To16: a 16-byte address as is, a 4-byte one in its mapped form. */
  function To16(ip: seq<Byte>): (r: Option<seq<Byte>>)
    ensures r.Some? <==> |ip| == 4 || |ip| == 16
    ensures r.Some? ==> |r.value| == 16 && r.value[16 - |ip|..] == ip
    ensures |ip| == 4 ==> r.Some? && IsMapped(r.value)
  {
    if |ip| == 4 then Some(V4InV6Prefix + ip)
    else if |ip| == 16 then Some(ip)
    else None
  }

  /** The family a trie walk starts in, and the fixed-width bytes it walks. */
  datatype Canonical = Canonical(family: Family, bytes: seq<Byte>)

  /**
   * canonicalizeIPAndGetRoot without the root: To4 is tried first, so both
   * 4-byte and IPv4-mapped addresses land in the v4 family as 4 bytes; any
   * other 16-byte address stays a 16-byte v6 address; every other length has
   * no canonical form.
   */
  function Canonicalize(ip: seq<Byte>): (r: Option<Canonical>)
    ensures r.Some? <==> |ip| == 4 || |ip| == 16
    ensures r.Some? ==> (r.value.family == V4 <==> |ip| == 4 || IsMapped(ip))
    ensures r.Some? ==> 8 * |r.value.bytes| == Width(r.value.family)
    // the canonical bytes are the address's own trailing bytes: only the mapping prefix is dropped
    ensures r.Some? ==> |r.value.bytes| <= |ip| && r.value.bytes == ip[|ip| - |r.value.bytes|..]
  {
    match To4(ip)
    case Some(v4) => Some(Canonical(V4, v4))
    case None =>
      match To16(ip)
      case Some(v6) => Some(Canonical(V6, v6))
      case None => None
  }

  /** An IPv4 address and its IPv4-mapped IPv6 form are routed to the same root with the same bytes. */
  lemma MappedRoutesLikeV4(a: seq<Byte>)
    requires |a| == 4
    ensures To16(a).Some? && IsMapped(To16(a).value) && To4(To16(a).value) == Some(a)
    ensures Canonicalize(To16(a).value) == Canonicalize(a) == Some(Canonical(V4, a))
  {
    assert To16(a).value[..12] == V4InV6Prefix;
    assert To16(a).value[12..] == a;
  }

  /** Canonicalizing is idempotent: the canonical bytes canonicalize to themselves, in the same family. */
  lemma CanonicalizeIdempotent(ip: seq<Byte>)
    requires Canonicalize(ip).Some?
    ensures Canonicalize(Canonicalize(ip).value.bytes) == Canonicalize(ip)
  {
  }

  /** Bit k of a byte, counting from the least significant bit. */
  function ByteBit(x: Byte, k: nat): bool
    requires k < 8
  {
    (x >> k) & 1 == 1
  }

  /** Reading bit 7 - k by shifting is testing it under the mask 0x80 >> k. */
  lemma MaskedBit(x: Byte, k: nat)
    requires k < 8
    ensures ByteBit(x, 7 - k) <==> x & (0x80 >> k) != 0
  {
  }

  /** Bit i of an address, most significant bit of byte 0 first: (ip[i/8] >> (7 - i%8)) & 1. */
  function Bit(ip: seq<Byte>, i: nat): (b: bool)
    requires i < 8 * |ip|
    ensures b <==> ip[i / 8] & (0x80 >> (i % 8)) != 0
  {
    MaskedBit(ip[i / 8], i % 8);
    ByteBit(ip[i / 8], 7 - i % 8)
  }

  /** The whole bit path an address spells out from its root. */
  function Bits(ip: seq<Byte>): (r: seq<bool>)
    ensures |r| == 8 * |ip|
  {
    seq(8 * |ip|, i requires 0 <= i < 8 * |ip| => Bit(ip, i))
  }

  /** The eight bits of a byte, most significant first. */
  function ByteBits(x: Byte): seq<bool> {
    seq(8, k requires 0 <= k < 8 => ByteBit(x, 7 - k))
  }

  /** Byte j of an address spells bits 8j .. 8j+7 of its path, most significant bit first. */
  lemma BitsMsbFirst(ip: seq<Byte>, j: nat)
    requires j < |ip|
    ensures 8 * j + 8 <= |Bits(ip)| && Bits(ip)[8 * j .. 8 * j + 8] == ByteBits(ip[j])
  {
    var s := Bits(ip)[8 * j .. 8 * j + 8];
    forall k | 0 <= k < 8
      ensures s[k] == ByteBits(ip[j])[k]
    {
      assert (8 * j + k) / 8 == j && (8 * j + k) % 8 == k;
    }
  }

  /** Addresses that agree on their first k bytes agree on their first 8k bits. */
  lemma SharedBytesShareBits(a: seq<Byte>, b: seq<Byte>, k: nat)
    requires k <= |a| && k <= |b| && a[..k] == b[..k]
    ensures Bits(a)[..8 * k] == Bits(b)[..8 * k]
  {
    forall i | 0 <= i < 8 * k
      ensures Bits(a)[i] == Bits(b)[i]
    {
      assert a[i / 8] == a[..k][i / 8];
    }
  }

  /** The eight bits of one byte determine it. */
  lemma ByteFromBits(x: Byte, y: Byte)
    requires forall k: nat :: k < 8 ==> ByteBit(x, k) == ByteBit(y, k)
    ensures x == y
  {
    assert ByteBit(x, 0) == ByteBit(y, 0) && ByteBit(x, 1) == ByteBit(y, 1);
    assert ByteBit(x, 2) == ByteBit(y, 2) && ByteBit(x, 3) == ByteBit(y, 3);
    assert ByteBit(x, 4) == ByteBit(y, 4) && ByteBit(x, 5) == ByteBit(y, 5);
    assert ByteBit(x, 6) == ByteBit(y, 6) && ByteBit(x, 7) == ByteBit(y, 7);
  }

  /** The bit path determines the address: two addresses with the same path are equal. */
  lemma BitsInjective(a: seq<Byte>, b: seq<Byte>)
    requires Bits(a) == Bits(b)
    ensures a == b
  {
    assert |a| == |b|;
    forall j | 0 <= j < |a| ensures a[j] == b[j] {
      forall k: nat | k < 8 ensures ByteBit(a[j], k) == ByteBit(b[j], k) {
        var i := 8 * j + (7 - k);
        assert i / 8 == j && 7 - i % 8 == k;
        assert Bits(a)[i] == Bit(a, i) && Bits(b)[i] == Bit(b, i);
      }
      ByteFromBits(a[j], b[j]);
    }
  }

  /**
   * Whether every bit InsertIpNet reads lies inside the canonical address:
   * the loop reads bits 0 .. prefixLen-1, so it needs prefixLen <= 8 * |bytes|.
   */
  predicate BitsInBounds(net: IPNet) {
    match Canonicalize(net.ip)
    case None => true
    case Some(c) => net.prefixLen <= 8 * |c.bytes|
  }

  /**
   * Where a trie keeps a network: in the family of its canonical address, at
   * the first prefixLen bits of that address.
   */
  predicate StoredAt(net: IPNet, f: Family, path: seq<bool>) {
    match Canonicalize(net.ip)
    case None => false
    case Some(c) => c.family == f && net.prefixLen <= 8 * |c.bytes| && path == Bits(c.bytes)[..net.prefixLen]
  }

  /**
   * A network covers an address when both have canonical forms of one family
   * and the address's bits begin with the network's first prefixLen bits.
   */
  predicate Covers(net: IPNet, ip: seq<Byte>) {
    match (Canonicalize(net.ip), Canonicalize(ip))
    case (Some(n), Some(a)) =>
      n.family == a.family && net.prefixLen <= 8 * |a.bytes|
      && Bits(a.bytes)[..net.prefixLen] == Bits(n.bytes)[..net.prefixLen]
    case _ => false
  }

  /**
   * As written, the only guard before the bit loop is that the address has a
   * canonical form. ::ffff:10.0.0.0/104 (what ParseCIDR yields for that
   * literal: a 16-byte masked address and a 16-byte mask) passes it, is
   * canonicalized to the 4 bytes of 10.0.0.0, and the loop then reads bit 32,
   * i.e. byte index 4 of a 4-byte slice.
   */
  lemma MappedNetOverrunsCanonicalForm()
    ensures var net := IPNet(V4InV6Prefix + [10, 0, 0, 0], 104);
            Canonicalize(net.ip).Some? && Canonicalize(net.ip).value.family == V4
            && |Canonicalize(net.ip).value.bytes| == 4
            && 32 < net.prefixLen && !BitsInBounds(net)
  {
    var net := IPNet(V4InV6Prefix + [10, 0, 0, 0], 104);
    assert net.ip[..12] == V4InV6Prefix;
  }
}
