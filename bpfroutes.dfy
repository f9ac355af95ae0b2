// The route map of the BPF programs: a longest-prefix-match trie from IPv4
// prefixes to route flags, the /32 lookup of an address and the flag tests.

module BpfRoutes {
  import opened Wrappers
  import opened BpfDefs

  /** enum cali_rt_flags */
  const CALI_RT_UNKNOWN: bv32 := 0x00
  const CALI_RT_IN_POOL: bv32 := 0x01
  const CALI_RT_NAT_OUT: bv32 := 0x02
  const CALI_RT_WORKLOAD: bv32 := 0x04
  const CALI_RT_LOCAL: bv32 := 0x08
  const CALI_RT_HOST: bv32 := 0x10

  /** struct cali_rt; nextHop is the union of the encapsulation next hop of a
      remote workload route and the interface index of a local one. */
  datatype Rt = Rt(flags: bv32, nextHop: U32)

  /** struct cali_rt_key: a prefix length and the address bytes as they lie
      in memory, in network order. */
  datatype RtKey = RtKey(prefixlen: nat, addr: W32)

  /** The bits of a byte, most significant first. */
  function ByteBits(x: bv8): (r: seq<bool>)
    ensures |r| == 8
  {
    [x & 0x80 != 0, x & 0x40 != 0, x & 0x20 != 0, x & 0x10 != 0,
     x & 0x08 != 0, x & 0x04 != 0, x & 0x02 != 0, x & 0x01 != 0]
  }

  /** The 32 bits of an address in the order the trie compares them: the
      bytes in memory order, each most significant bit first. */
  function AddrBits(a: W32): (r: seq<bool>)
    ensures |r| == 32
  {
    ByteBits(a.b0) + ByteBits(a.b1) + ByteBits(a.b2) + ByteBits(a.b3)
  }

  /** The prefix a trie key stands for: its first prefixlen address bits.
      The kernel refuses keys longer than the 32 data bits. */
  function TrieKey(k: RtKey): (p: Option<seq<bool>>)
    ensures p.Some? <==> k.prefixlen <= 32
    ensures p.Some? ==> |p.value| == k.prefixlen && p.value == AddrBits(k.addr)[..k.prefixlen]
  {
    if k.prefixlen <= 32 then Some(AddrBits(k.addr)[..k.prefixlen]) else None
  }

  /** The LPM-trie map cali_v4_routes, by the prefixes its keys stand for.
      Keys that agree on their first prefixlen bits are one entry. */
  type RouteTrie = map<seq<bool>, Rt>

  /** The longest prefix of bits[..n] that the trie holds, with its length. */
  function LongestMatch(trie: RouteTrie, bits: seq<bool>, n: nat): (r: Option<(nat, Rt)>)
    requires n <= |bits|
    ensures r.Some? ==> r.value.0 <= n && bits[..r.value.0] in trie && trie[bits[..r.value.0]] == r.value.1
    ensures r.Some? ==> forall q :: r.value.0 < q <= n ==> bits[..q] !in trie
    ensures r.None? <==> forall q :: 0 <= q <= n ==> bits[..q] !in trie
    decreases n
  {
    if bits[..n] in trie then Some((n, trie[bits[..n]]))
    else if n == 0 then None
    else LongestMatch(trie, bits, n - 1)
  }

  /** cali_rt_lookup: the route of the longest prefix covering the address,
      looked up with the full-length key (prefixlen 32). The address is the
      register value of a network-order field. */
  function CaliRtLookup(e: Endianness, trie: RouteTrie, addr: W32): (r: Option<Rt>)
    ensures r.Some? <==> exists q :: 0 <= q <= 32 && AddrBits(BeToHost32(e, addr))[..q] in trie
  {
    var bits := AddrBits(BeToHost32(e, addr));
    var m := LongestMatch(trie, bits, 32);
    if m.Some? then Some(m.value.1) else None
  }

  /** cali_rt_lookup_flags: the route's flags, CALI_RT_UNKNOWN without one. */
  function CaliRtLookupFlags(e: Endianness, trie: RouteTrie, addr: W32): (t: bv32)
    ensures CaliRtLookup(e, trie, addr).None? ==> t == CALI_RT_UNKNOWN
    ensures CaliRtLookup(e, trie, addr).Some? ==> t == CaliRtLookup(e, trie, addr).value.flags
  {
    var rt := CaliRtLookup(e, trie, addr);
    if rt.None? then CALI_RT_UNKNOWN else rt.value.flags
  }

  predicate IsLocal(rt: Rt) { rt.flags & CALI_RT_LOCAL != 0 }
  predicate IsHost(rt: Rt) { rt.flags & CALI_RT_HOST != 0 }

  predicate FlagsLocalHost(t: bv32)
  {
    t & (CALI_RT_LOCAL | CALI_RT_HOST) == (CALI_RT_LOCAL | CALI_RT_HOST)
  }

  predicate FlagsLocalWorkload(t: bv32)
  {
    t & CALI_RT_LOCAL != 0 && t & CALI_RT_WORKLOAD != 0
  }

  predicate FlagsRemoteWorkload(t: bv32)
  {
    t & CALI_RT_LOCAL == 0 && t & CALI_RT_WORKLOAD != 0
  }

  // ---------------------------------------------------------------------
  // Lookup

  /** The route found is the one of the longest trie prefix the address
      starts with: every other such prefix is shorter. */
  lemma LookupIsLongestMatch(trie: RouteTrie, bits: seq<bool>)
    requires |bits| == 32
    ensures var m := LongestMatch(trie, bits, 32);
      m.Some? ==> forall k :: k in trie && |k| <= 32 && k == bits[..|k|] ==> |k| <= m.value.0
    ensures var m := LongestMatch(trie, bits, 32);
      m.None? ==> forall k :: k in trie ==> !(|k| <= 32 && k == bits[..|k|])
  {
    var m := LongestMatch(trie, bits, 32);
    forall k | k in trie && |k| <= 32 && k == bits[..|k|]
      ensures m.Some? && |k| <= m.value.0
    {
      assert bits[..|k|] in trie;
    }
  }

  /** The kernel key the lookup builds (prefixlen 32, the address in memory
      order) stands for all 32 bits of the address. */
  lemma LookupKeyIsFullAddress(e: Endianness, addr: W32)
    ensures TrieKey(RtKey(32, BeToHost32(e, addr))) == Some(AddrBits(BeToHost32(e, addr)))
  {
    var bits := AddrBits(BeToHost32(e, addr));
    assert bits[..32] == bits;
  }

  /** An address taken from packet bytes m0 .. m3 is looked up by the bits of
      those bytes in wire order, whatever the target's byte order. */
  lemma LookupReadsWireOrder(e: Endianness, trie: RouteTrie, m0: bv8, m1: bv8, m2: bv8, m3: bv8)
    ensures CaliRtLookup(e, trie, Load32(e, m0, m1, m2, m3))
      == CaliRtLookup(BigEndian, trie, W32(m0, m1, m2, m3))
  {
    BeToHostReadsNetworkOrder(e, m0, m1, m2, m3);
  }

  /** A /32 route for the address is the one found. */
  lemma ExactRouteFound(e: Endianness, trie: RouteTrie, addr: W32)
    requires AddrBits(BeToHost32(e, addr)) in trie
    ensures CaliRtLookup(e, trie, addr) == Some(trie[AddrBits(BeToHost32(e, addr))])
  {
    var bits := AddrBits(BeToHost32(e, addr));
    assert bits[..32] == bits;
  }

  /** With a default route (prefix length 0) every lookup hits. */
  lemma DefaultRouteHits(e: Endianness, trie: RouteTrie, addr: W32)
    requires [] in trie
    ensures CaliRtLookup(e, trie, addr).Some?
  {
    var bits := AddrBits(BeToHost32(e, addr));
    assert bits[..0] == [];
  }

  // ---------------------------------------------------------------------
  // Flag tests

  /** local_host holds exactly when both the LOCAL and the HOST bit are set. */
  lemma LocalHostIffBothBits(t: bv32)
    ensures FlagsLocalHost(t) <==> t & CALI_RT_LOCAL != 0 && t & CALI_RT_HOST != 0
  {
  }

  /** A workload route is either local or remote, never both. */
  lemma WorkloadLocalOrRemote(t: bv32)
    ensures !(FlagsLocalWorkload(t) && FlagsRemoteWorkload(t))
    ensures t & CALI_RT_WORKLOAD != 0 <==> FlagsLocalWorkload(t) || FlagsRemoteWorkload(t)
  {
  }

  /** The flag macros agree with the route tests on the route's flags. */
  lemma RouteTestsOnFlags(rt: Rt)
    ensures FlagsLocalHost(rt.flags) <==> IsLocal(rt) && IsHost(rt)
    ensures FlagsLocalWorkload(rt.flags) ==> IsLocal(rt)
    ensures FlagsRemoteWorkload(rt.flags) ==> !IsLocal(rt)
  {
    LocalHostIffBothBits(rt.flags);
  }

  /** An address without a route is neither local nor a workload. */
  lemma UnknownMatchesNoTest(e: Endianness, trie: RouteTrie, addr: W32)
    requires CaliRtLookup(e, trie, addr).None?
    ensures CaliRtLookupFlags(e, trie, addr) == CALI_RT_UNKNOWN
    ensures !FlagsLocalHost(CaliRtLookupFlags(e, trie, addr))
    ensures !FlagsLocalWorkload(CaliRtLookupFlags(e, trie, addr))
    ensures !FlagsRemoteWorkload(CaliRtLookupFlags(e, trie, addr))
  {
  }
}
