// BPF data-plane definitions: the compile-time program flags, the byte-order
// conversions of the target, the port helpers and the IPv4 DF test.

module BpfDefs {

  /** Unsigned integers of the widths the headers use, where the code only
      compares or stores them. */
  type Port = x: int | 0 <= x < 0x1_0000
  type Proto = x: int | 0 <= x < 0x100
  type U32 = x: int | 0 <= x < 0x1_0000_0000

  // ---------------------------------------------------------------------
  // Program flags (enum calico_tc_flags and the CALI_F_* macros).

  const CALI_TC_HOST_EP: bv32 := 1
  const CALI_TC_INGRESS: bv32 := 2
  const CALI_TC_TUNNEL: bv32 := 4
  const CALI_CGROUP: bv32 := 8

  /** The flags a program is compiled with when none are given. */
  const CALI_COMPILE_FLAGS_DEFAULT: bv32 := 0

  predicate Ingress(f: bv32) { f & CALI_TC_INGRESS != 0 }
  predicate Egress(f: bv32) { !Ingress(f) }
  predicate Hep(f: bv32) { f & CALI_TC_HOST_EP != 0 }
  predicate Wep(f: bv32) { !Hep(f) }
  predicate Tunnel(f: bv32) { f & CALI_TC_TUNNEL != 0 }

  predicate FromHep(f: bv32) { Hep(f) && Ingress(f) }
  predicate ToHep(f: bv32) { Hep(f) && !Ingress(f) }
  predicate FromWep(f: bv32) { Wep(f) && Egress(f) }
  predicate ToWep(f: bv32) { Wep(f) && Ingress(f) }

  predicate ToHost(f: bv32) { FromHep(f) || FromWep(f) }
  predicate FromHost(f: bv32) { !ToHost(f) }
  predicate L3(f: bv32) { ToHep(f) && Tunnel(f) }
  predicate IpipEncapped(f: bv32) { Ingress(f) && Tunnel(f) }

  /** How many of the four attachment roles hold. */
  function RoleCount(f: bv32): nat
  {
    (if FromHep(f) then 1 else 0) + (if ToHep(f) then 1 else 0)
    + (if FromWep(f) then 1 else 0) + (if ToWep(f) then 1 else 0)
  }

  /** Every program has exactly one attachment role. */
  lemma ExactlyOneRole(f: bv32)
    ensures RoleCount(f) == 1
  {
    if Hep(f) {
      if Ingress(f) {
        assert FromHep(f) && !ToHep(f) && !FromWep(f) && !ToWep(f);
      } else {
        assert !FromHep(f) && ToHep(f) && !FromWep(f) && !ToWep(f);
      }
    } else {
      if Ingress(f) {
        assert !FromHep(f) && !ToHep(f) && !FromWep(f) && ToWep(f);
      } else {
        assert !FromHep(f) && !ToHep(f) && FromWep(f) && !ToWep(f);
      }
    }
  }

  /** Traffic goes towards the host exactly when it enters a host endpoint or
      leaves a workload, i.e. when the host-endpoint bit equals the ingress
      bit; the other programs see traffic coming from the host. */
  lemma ToHostDirection(f: bv32)
    ensures ToHost(f) <==> (Hep(f) <==> Ingress(f))
    ensures FromHost(f) <==> ToHep(f) || ToWep(f)
  {
  }

  /** An L3 (tunnel egress) program never sees an IPIP-encapsulated packet. */
  lemma L3ExcludesIpip(f: bv32)
    ensures !(L3(f) && IpipEncapped(f))
    ensures L3(f) ==> Tunnel(f) && Egress(f) && Hep(f)
    ensures IpipEncapped(f) ==> Tunnel(f) && Ingress(f)
  {
  }

  /** Without compile flags the program is the egress program of a workload
      interface: traffic from the workload towards the host, no tunnel. */
  lemma DefaultFlags()
    ensures FromWep(CALI_COMPILE_FLAGS_DEFAULT) && ToHost(CALI_COMPILE_FLAGS_DEFAULT)
    ensures !L3(CALI_COMPILE_FLAGS_DEFAULT) && !IpipEncapped(CALI_COMPILE_FLAGS_DEFAULT)
  {
  }

  // ---------------------------------------------------------------------
  // Byte order.

  /** The target's byte order; a target that is neither does not compile. */
  datatype Endianness = LittleEndian | BigEndian

  /** Fixed-width words as the bytes of their value, most significant first.
      The header code only masks, compares, shifts by whole bytes and swaps
      them, all of which act on bytes. */
  datatype W16 = W16(b0: bv8, b1: bv8)
  datatype W32 = W32(b0: bv8, b1: bv8, b2: bv8, b3: bv8)
  datatype W64 = W64(b0: bv8, b1: bv8, b2: bv8, b3: bv8, b4: bv8, b5: bv8, b6: bv8, b7: bv8)

  const ZERO16 := W16(0, 0)
  const ZERO32 := W32(0, 0, 0, 0)
  const ZERO64 := W64(0, 0, 0, 0, 0, 0, 0, 0)

  function Value16(w: W16): nat
  {
    w.b0 as nat * 0x100 + w.b1 as nat
  }

  function Value32(w: W32): nat
  {
    ((w.b0 as nat * 0x100 + w.b1 as nat) * 0x100 + w.b2 as nat) * 0x100 + w.b3 as nat
  }

  function And16(x: W16, y: W16): W16 { W16(x.b0 & y.b0, x.b1 & y.b1) }
  function And32(x: W32, y: W32): W32 { W32(x.b0 & y.b0, x.b1 & y.b1, x.b2 & y.b2, x.b3 & y.b3) }
  function Or32(x: W32, y: W32): W32 { W32(x.b0 | y.b0, x.b1 | y.b1, x.b2 | y.b2, x.b3 | y.b3) }
  function Not32(x: W32): W32 { W32(!x.b0, !x.b1, !x.b2, !x.b3) }

  /** x >> 16 */
  function Shr16(x: W32): W32 { W32(0, 0, x.b0, x.b1) }

  /** __builtin_bswap16, 32 and 64. */
  function Bswap16(x: W16): W16 { W16(x.b1, x.b0) }
  function Bswap32(x: W32): W32 { W32(x.b3, x.b2, x.b1, x.b0) }
  function Bswap64(x: W64): W64 { W64(x.b7, x.b6, x.b5, x.b4, x.b3, x.b2, x.b1, x.b0) }

  function BeToHost16(e: Endianness, x: W16): W16 { if e.LittleEndian? then Bswap16(x) else x }
  function HostToBe16(e: Endianness, x: W16): W16 { if e.LittleEndian? then Bswap16(x) else x }
  function BeToHost32(e: Endianness, x: W32): W32 { if e.LittleEndian? then Bswap32(x) else x }
  function HostToBe32(e: Endianness, x: W32): W32 { if e.LittleEndian? then Bswap32(x) else x }
  function BeToHost64(e: Endianness, x: W64): W64 { if e.LittleEndian? then Bswap64(x) else x }
  function HostToBe64(e: Endianness, x: W64): W64 { if e.LittleEndian? then Bswap64(x) else x }

  /** The value a 16-bit load of the memory bytes m0 m1 yields. */
  function Load16(e: Endianness, m0: bv8, m1: bv8): W16
  {
    if e.LittleEndian? then W16(m1, m0) else W16(m0, m1)
  }

  /** The value a 32-bit load of the memory bytes m0 .. m3 yields. */
  function Load32(e: Endianness, m0: bv8, m1: bv8, m2: bv8, m3: bv8): W32
  {
    if e.LittleEndian? then W32(m3, m2, m1, m0) else W32(m0, m1, m2, m3)
  }

  /** Each conversion undoes its partner, on every target and width. */
  lemma ByteOrderInvolution(e: Endianness, x16: W16, x32: W32, x64: W64)
    ensures HostToBe16(e, BeToHost16(e, x16)) == x16 && BeToHost16(e, HostToBe16(e, x16)) == x16
    ensures HostToBe32(e, BeToHost32(e, x32)) == x32 && BeToHost32(e, HostToBe32(e, x32)) == x32
    ensures HostToBe64(e, BeToHost64(e, x64)) == x64 && BeToHost64(e, HostToBe64(e, x64)) == x64
  {
  }

  /** Converting a field loaded from network-order memory gives the number
      its bytes spell, most significant byte first. */
  lemma BeToHostReadsNetworkOrder(e: Endianness, m0: bv8, m1: bv8, m2: bv8, m3: bv8)
    ensures BeToHost16(e, Load16(e, m0, m1)) == W16(m0, m1)
    ensures BeToHost32(e, Load32(e, m0, m1, m2, m3)) == W32(m0, m1, m2, m3)
  {
  }

  /** Swapping bytes commutes with masking. */
  lemma Bswap32And(x: W32, y: W32)
    ensures Bswap32(And32(x, y)) == And32(Bswap32(x), Bswap32(y))
    ensures BeToHost32(LittleEndian, And32(x, y)) == And32(BeToHost32(LittleEndian, x), BeToHost32(LittleEndian, y))
  {
  }

  // ---------------------------------------------------------------------
  // Ports.

  /** port_to_host: a 32-bit socket port field holding a network-order port
      in its first two bytes, as a host-order number. */
  function PortToHost(e: Endianness, port: W32): (r: W32)
    ensures r.b0 == 0 && r.b1 == 0
  {
    Shr16(BeToHost32(e, port))
  }

  /** Whatever the target, the result is the port the first two bytes of the
      field spell, below 65536; the last two bytes do not matter. */
  lemma PortToHostReadsFirstTwoBytes(e: Endianness, m0: bv8, m1: bv8, m2: bv8, m3: bv8)
    ensures PortToHost(e, Load32(e, m0, m1, m2, m3)) == W32(0, 0, m0, m1)
    ensures Value32(PortToHost(e, Load32(e, m0, m1, m2, m3))) == Value16(W16(m0, m1)) < 0x1_0000
  {
    BeToHostReadsNetworkOrder(e, m0, m1, m2, m3);
  }

  /** safe_extract_port: folds the two halves of a 32-bit load together so
      that a full 32-bit read is kept. */
  function SafeExtractPort(port: W32): W32
  {
    Or32(Shr16(port), And32(port, W32(0, 0, 0xff, 0xff)))
  }

  /** The result fits in 16 bits, and a port already in the low half (the
      only kind the field holds) comes back unchanged; a value in the high
      half is moved down. */
  lemma SafeExtractPortKeepsPort(port: W32)
    ensures SafeExtractPort(port).b0 == 0 && SafeExtractPort(port).b1 == 0
    ensures port.b0 == 0 && port.b1 == 0 ==> SafeExtractPort(port) == port
    ensures port.b2 == 0 && port.b3 == 0 ==> SafeExtractPort(port) == Shr16(port)
  {
    ByteIdentities(port.b0);
    ByteIdentities(port.b1);
    ByteIdentities(port.b2);
    ByteIdentities(port.b3);
  }

  lemma ByteIdentities(x: bv8)
    ensures x | 0 == x && 0 | x == x
    ensures x & 0xff == x && x & 0 == 0
  {
  }

  // ---------------------------------------------------------------------
  // ip_is_dnf

  /** The Don't Fragment flag of the flags/fragment-offset word (bit 1 of the
      Flags field, section 3.1 of RFC 791), as a host-order value. */
  const IP_DF := W16(0x40, 0x00)

  function IpIsDnf(e: Endianness, fragOff: W16): bool
  {
    And16(fragOff, HostToBe16(e, IP_DF)) != ZERO16
  }

  /** The test reads the DF bit of the host-order word. */
  lemma IpIsDnfHostOrder(e: Endianness, fragOff: W16)
    ensures IpIsDnf(e, fragOff) <==> And16(BeToHost16(e, fragOff), IP_DF) != ZERO16
  {
  }

  /** On the wire, DF is the 0x40 bit of the first byte of the word. */
  lemma IpIsDnfFirstByte(e: Endianness, m0: bv8, m1: bv8)
    ensures IpIsDnf(e, Load16(e, m0, m1)) <==> m0 & 0x40 != 0
  {
    IpIsDnfHostOrder(e, Load16(e, m0, m1));
    BeToHostReadsNetworkOrder(e, m0, m1, 0, 0);
  }
}
