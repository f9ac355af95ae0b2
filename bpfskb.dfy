// Packet bounds checks of the BPF programs: the socket buffer as the pair of
// its data and data_end addresses, the length tests and the offset of the
// IPv4 header for each kind of program.

module BpfSkb {
  import opened BpfDefs

  /** Sizes of the Linux headers involved (struct ethhdr, iphdr, udphdr). */
  const ETH_HLEN: nat := 14
  const IPHDR_LEN: nat := 20
  const UDPHDR_LEN: nat := 8

  const IPV4_UDP_SIZE: nat := IPHDR_LEN + UDPHDR_LEN
  const ETH_IPV4_UDP_SIZE: nat := ETH_HLEN + IPV4_UDP_SIZE

  /** The packet occupies the addresses data .. dataEnd - 1. */
  datatype Skb = Skb(data: int, dataEnd: int)

  function Len(skb: Skb): int
  {
    skb.dataEnd - skb.data
  }

  /** skb_shorter: fewer than `len` bytes follow the start of the packet. */
  predicate SkbShorter(skb: Skb, len: int)
  {
    skb.data + len > skb.dataEnd
  }

  /** skb_offset */
  function SkbOffset(skb: Skb, ptr: int): int
  {
    ptr - skb.data
  }

  /** skb_has_data_after, for a pointer to an object of `size` bytes. */
  predicate SkbHasDataAfter(skb: Skb, ptr: int, size: nat, n: int)
  {
    !SkbShorter(skb, SkbOffset(skb, ptr) + size + n)
  }

  /** skb_shorter compares against the packet length. */
  lemma ShorterIsLength(skb: Skb, len: int)
    ensures SkbShorter(skb, len) <==> Len(skb) < len
  {
  }

  /** The object at `ptr` and the `n` bytes after it end within the packet. */
  lemma HasDataAfterWithin(skb: Skb, ptr: int, size: nat, n: int)
    ensures SkbHasDataAfter(skb, ptr, size, n) <==> ptr + size + n <= skb.dataEnd
  {
  }

  /** skb_too_short: the packet cannot hold the headers the program reads. */
  predicate SkbTooShort(f: bv32, skb: Skb)
  {
    if IpipEncapped(f) then SkbShorter(skb, ETH_IPV4_UDP_SIZE + IPHDR_LEN)
    else if L3(f) then SkbShorter(skb, IPV4_UDP_SIZE)
    else SkbShorter(skb, ETH_IPV4_UDP_SIZE)
  }

  /** skb_iphdr_offset: [ether|outer IP|inner IP|..] on IPIP ingress,
      [inner IP|..] on tunnel egress, [ether|IP|..] otherwise. */
  function SkbIphdrOffset(f: bv32): (off: nat)
    ensures IpipEncapped(f) ==> off == ETH_HLEN + IPHDR_LEN
    ensures L3(f) ==> off == 0
    ensures !IpipEncapped(f) && !L3(f) ==> off == ETH_HLEN
  {
    L3ExcludesIpip(f);
    if IpipEncapped(f) then ETH_HLEN + IPHDR_LEN
    else if L3(f) then 0
    else ETH_HLEN
  }

  /** skb_iphdr: the address of the (inner) IPv4 header. */
  function SkbIphdr(f: bv32, skb: Skb): int
  {
    skb.data + SkbIphdrOffset(f)
  }

  /** The offsets in bytes: 34, 0 and 14. */
  lemma IphdrOffsets(f: bv32)
    ensures IpipEncapped(f) ==> SkbIphdrOffset(f) == 34
    ensures L3(f) ==> SkbIphdrOffset(f) == 0
    ensures !IpipEncapped(f) && !L3(f) ==> SkbIphdrOffset(f) == 14
  {
  }

  /** The length thresholds in bytes: 62, 28 and 42. */
  lemma TooShortThresholds(f: bv32, skb: Skb)
    ensures IpipEncapped(f) ==> (SkbTooShort(f, skb) <==> Len(skb) < 62)
    ensures L3(f) ==> (SkbTooShort(f, skb) <==> Len(skb) < 28)
    ensures !IpipEncapped(f) && !L3(f) ==> (SkbTooShort(f, skb) <==> Len(skb) < 42)
  {
    L3ExcludesIpip(f);
  }

  /** A packet is too short exactly when it has no room for a 20-byte IPv4
      header and an 8-byte UDP header at the offset the program reads. */
  lemma TooShortIffNoRoom(f: bv32, skb: Skb)
    ensures SkbTooShort(f, skb) <==> Len(skb) < SkbIphdrOffset(f) + IPHDR_LEN + UDPHDR_LEN
  {
    L3ExcludesIpip(f);
  }

  /** After the length check, the IPv4 header and the UDP header that follows
      it lie within the packet. */
  lemma NotTooShortHeadersFit(f: bv32, skb: Skb)
    requires !SkbTooShort(f, skb)
    ensures SkbHasDataAfter(skb, SkbIphdr(f, skb), IPHDR_LEN, UDPHDR_LEN)
  {
    TooShortIffNoRoom(f, skb);
  }
}
