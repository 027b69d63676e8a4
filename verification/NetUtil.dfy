/** The public/private classification of internal/netutil/rfc1918.go. */
module NetUtil {
  import opened Basics

  /** What net.ParseIP returns, after the To4 step that IPNet.Contains performs:
      IPv4 and IPv4-mapped addresses have four octets, the others sixteen. */
  datatype Addr = V4(a: bv8, b: bv8, c: bv8, d: bv8) | V6(hi: bv64, lo: bv64)

  /** A CIDR block: the four octets of the network and the number of leading one bits of its mask. */
  datatype IPNet = IPNet(a: bv8, b: bv8, c: bv8, d: bv8, ones: nat)

  /** Byte i of the mask with the given number of leading one bits. */
  function MaskByte(ones: nat, i: nat): bv8 {
    if 8 * i + 8 <= ones then 0xFF
    else if ones <= 8 * i then 0
    else !(0xFF >> (ones - 8 * i))
  }

  predicate Contains(n: IPNet, addr: Addr) {
    match addr
    case V6(_, _) => false // the lengths differ
    case V4(a, b, c, d) =>
      && n.a & MaskByte(n.ones, 0) == a & MaskByte(n.ones, 0)
      && n.b & MaskByte(n.ones, 1) == b & MaskByte(n.ones, 1)
      && n.c & MaskByte(n.ones, 2) == c & MaskByte(n.ones, 2)
      && n.d & MaskByte(n.ones, 3) == d & MaskByte(n.ones, 3)
  }

  const PRIVATE_BLOCKS: seq<IPNet> :=
    [IPNet(10, 0, 0, 0, 8), IPNet(172, 16, 0, 0, 12), IPNet(192, 168, 0, 0, 16), IPNet(127, 0, 0, 0, 8)]

  /** `parse` is net.ParseIP: None for text that is not an address. */
  predicate IsPrivate(parse: string -> Option<Addr>, ip: string) {
    match parse(ip)
    case None => false
    case Some(addr) => exists i :: 0 <= i < |PRIVATE_BLOCKS| && Contains(PRIVATE_BLOCKS[i], addr)
  }

  predicate IsPublic(parse: string -> Option<Addr>, ip: string) {
    !IsPrivate(parse, ip)
  }

  /** The address as one 32-bit number, most significant octet first. */
  function Value(addr: Addr): bv32
    requires addr.V4?
  {
    ((addr.a as bv32) << 24) | ((addr.b as bv32) << 16) | ((addr.c as bv32) << 8) | (addr.d as bv32)
  }

  /** The address ranges of section 3 of RFC 1918, as first and last address, and the loopback block. */
  predicate InReservedRange(v: bv32) {
    || 0x0A00_0000 <= v <= 0x0AFF_FFFF
    || 0xAC10_0000 <= v <= 0xAC1F_FFFF
    || 0xC0A8_0000 <= v <= 0xC0A8_FFFF
    || 0x7F00_0000 <= v <= 0x7FFF_FFFF
  }

  lemma MaskBytes()
    ensures MaskByte(8, 0) == 0xFF && MaskByte(8, 1) == 0 && MaskByte(8, 2) == 0 && MaskByte(8, 3) == 0
    ensures MaskByte(12, 0) == 0xFF && MaskByte(12, 1) == 0xF0 && MaskByte(12, 2) == 0 && MaskByte(12, 3) == 0
    ensures MaskByte(16, 0) == 0xFF && MaskByte(16, 1) == 0xFF && MaskByte(16, 2) == 0 && MaskByte(16, 3) == 0
  {
  }

  lemma FullMask(x: bv8)
    ensures x & 0xFF == x && x & 0 == 0
  {
  }

  /** Which addresses each of the four blocks contains, octet by octet. */
  lemma ContainsBlock(addr: Addr)
    requires addr.V4?
    ensures Contains(PRIVATE_BLOCKS[0], addr) <==> addr.a == 10
    ensures Contains(PRIVATE_BLOCKS[1], addr) <==> addr.a == 172 && addr.b & 0xF0 == 16
    ensures Contains(PRIVATE_BLOCKS[2], addr) <==> addr.a == 192 && addr.b == 168
    ensures Contains(PRIVATE_BLOCKS[3], addr) <==> addr.a == 127
  {
    MaskBytes();
    FullMask(addr.a);
    FullMask(addr.b);
    FullMask(addr.c);
    FullMask(addr.d);
  }

  lemma OctetsOfValue(addr: Addr)
    requires addr.V4?
    ensures InReservedRange(Value(addr)) <==>
              addr.a == 10 || (addr.a == 172 && addr.b & 0xF0 == 16) || (addr.a == 192 && addr.b == 168) || addr.a == 127
  {
  }

  /** Mask-and-compare over the CIDR list is membership in the address ranges, and
      nothing but a four-octet address is ever private. */
  lemma IsPrivateIsRangeMembership(parse: string -> Option<Addr>, ip: string)
    ensures IsPrivate(parse, ip) <==>
              parse(ip).Some? && parse(ip).value.V4? && InReservedRange(Value(parse(ip).value))
  {
    if parse(ip).Some? && parse(ip).value.V4? {
      var addr := parse(ip).value;
      ContainsBlock(addr);
      OctetsOfValue(parse(ip).value);
    }
  }

  /** The classification as a function value, the form in which the actors receive it. */
  function Classifier(parse: string -> Option<Addr>): string -> bool {
    (ip: string) => IsPrivate(parse, ip)
  }
}
