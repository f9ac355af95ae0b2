// The rule-matching building blocks of generated BPF policy programs: one
// match step with its negation, the port-range, CIDR and IP-set tests, and
// the jump to a rule's action when every step of the rule passes.

module BpfPolicy {
  import opened BpfDefs

  /** struct port_range: a plain inclusive range when ipSetId is zero, a named
      port (an IP set of address:port:protocol members) otherwise. */
  datatype PortRange = PortRange(ipSetId: W64, min: Port, max: Port)

  /** struct cidr, with mask and address in host order. */
  datatype Cidr = Cidr(mask: W32, addr: W32)

  /** struct ip4setkey (packed): the prefix length, then the set id, address,
      port, protocol and padding; 4 + 8 + 4 + 2 + 1 + 1 bytes. */
  datatype IpSetKey = IpSetKey(mask: nat, setId: W64, addr: W32, port: Port, protocol: Proto, pad: Proto)

  const IP4SETKEY_SIZE: nat := 20

  /** The IP-set map, as the set of full-length keys whose lookup hits. */
  type IpSets = set<IpSetKey>

  /** The lookup key for a set member: full length, set id in network order. */
  function IpSetKeyOf(e: Endianness, setId: W64, addr: W32, port: Port, protocol: Proto): (k: IpSetKey)
    ensures k.mask == 8 * IP4SETKEY_SIZE && k.pad == 0
    ensures BeToHost64(e, k.setId) == setId
    ensures k.addr == addr && k.port == port && k.protocol == protocol
  {
    ByteOrderInvolution(e, ZERO16, ZERO32, setId);
    IpSetKey(8 * IP4SETKEY_SIZE, HostToBe64(e, setId), addr, port, protocol, 0)
  }

  // ---------------------------------------------------------------------
  // RULE_MATCH

  /** A step sends evaluation to the next rule when its test fails, or when
      it holds and the step is negated. */
  predicate FallsThrough(test: bool, negate: bool)
  {
    if negate then test else !test
  }

  /** A step passes exactly when the test result differs from the negation. */
  lemma FallsThroughXor(test: bool, negate: bool)
    ensures FallsThrough(test, negate) <==> test == negate
    ensures !FallsThrough(test, negate) <==> (test != negate)
  {
  }

  // ---------------------------------------------------------------------
  // RULE_MATCH_PORT_RANGES

  predicate RangeHit(e: Endianness, ipSets: IpSets, r: PortRange, addr: W32, port: Port, protocol: Proto)
  {
    if r.ipSetId == ZERO64 then r.min <= port && port <= r.max
    else IpSetKeyOf(e, r.ipSetId, addr, port, protocol) in ipSets
  }

  predicate PortRangesMatch(e: Endianness, ipSets: IpSets, ranges: seq<PortRange>, addr: W32, port: Port, protocol: Proto)
  {
    exists i :: 0 <= i < |ranges| && RangeHit(e, ipSets, ranges[i], addr, port, protocol)
  }

  /** The loop over the rule's ranges: stops at the first range that holds. */
  method MatchPortRanges(e: Endianness, ipSets: IpSets, ranges: seq<PortRange>, addr: W32, port: Port, protocol: Proto)
    returns (matched: bool)
    ensures matched <==> exists i :: 0 <= i < |ranges| && RangeHit(e, ipSets, ranges[i], addr, port, protocol)
  {
    matched := false;
    var i := 0;
    while i < |ranges|
      invariant 0 <= i <= |ranges|
      invariant !matched
      invariant forall j :: 0 <= j < i ==> !RangeHit(e, ipSets, ranges[j], addr, port, protocol)
    {
      if ranges[i].ipSetId == ZERO64 {
        if port >= ranges[i].min && port <= ranges[i].max {
          matched := true;
          break;
        }
      } else {
        var k := IpSetKeyOf(e, ranges[i].ipSetId, addr, port, protocol);
        if k in ipSets {
          matched := true;
          break;
        }
      }
      i := i + 1;
    }
  }

  /** Plain ranges are inclusive at both ends, and an empty range (min above
      max) matches no port. */
  lemma PlainRangeInclusive(e: Endianness, ipSets: IpSets, lo: Port, hi: Port, addr: W32, protocol: Proto)
    ensures lo <= hi ==> RangeHit(e, ipSets, PortRange(ZERO64, lo, hi), addr, lo, protocol)
    ensures lo <= hi ==> RangeHit(e, ipSets, PortRange(ZERO64, lo, hi), addr, hi, protocol)
    ensures lo > hi ==> forall port :: !RangeHit(e, ipSets, PortRange(ZERO64, lo, hi), addr, port, protocol)
  {
  }

  /** A named port matches exactly when its set holds the packet's address,
      port and protocol. */
  lemma NamedPortLookup(e: Endianness, ipSets: IpSets, r: PortRange, addr: W32, port: Port, protocol: Proto)
    requires r.ipSetId != ZERO64
    ensures RangeHit(e, ipSets, r, addr, port, protocol) <==>
      exists k :: k in ipSets && k.mask == 8 * IP4SETKEY_SIZE && BeToHost64(e, k.setId) == r.ipSetId
        && k.addr == addr && k.port == port && k.protocol == protocol && k.pad == 0
  {
    var key := IpSetKeyOf(e, r.ipSetId, addr, port, protocol);
    if exists k :: k in ipSets && k.mask == 8 * IP4SETKEY_SIZE && BeToHost64(e, k.setId) == r.ipSetId
        && k.addr == addr && k.port == port && k.protocol == protocol && k.pad == 0 {
      var k :| k in ipSets && k.mask == 8 * IP4SETKEY_SIZE && BeToHost64(e, k.setId) == r.ipSetId
        && k.addr == addr && k.port == port && k.protocol == protocol && k.pad == 0;
      ByteOrderInvolution(e, ZERO16, ZERO32, k.setId);
      assert k == key;
    }
  }

  // ---------------------------------------------------------------------
  // RULE_MATCH_CIDRS

  /** The address (network order) masked by the CIDR mask equals the CIDR's
      address, both converted to network order. */
  predicate CidrHit(e: Endianness, c: Cidr, addr: W32)
  {
    And32(addr, HostToBe32(e, c.mask)) == HostToBe32(e, c.addr)
  }

  /** The loop over the rule's CIDRs: stops at the first that holds. */
  method MatchCidrs(e: Endianness, cidrs: seq<Cidr>, addr: W32) returns (matched: bool)
    ensures matched <==> exists i :: 0 <= i < |cidrs| && CidrHit(e, cidrs[i], addr)
  {
    matched := false;
    var i := 0;
    while i < |cidrs|
      invariant 0 <= i <= |cidrs|
      invariant !matched
      invariant forall j :: 0 <= j < i ==> !CidrHit(e, cidrs[j], addr)
    {
      if CidrHit(e, cidrs[i], addr) {
        matched := true;
        break;
      }
      i := i + 1;
    }
  }

  /** The test is the usual masked comparison in host order. */
  lemma CidrHitHostOrder(e: Endianness, c: Cidr, addr: W32)
    ensures CidrHit(e, c, addr) <==> And32(BeToHost32(e, addr), c.mask) == c.addr
  {
    if e.LittleEndian? {
      CidrHitLittle(e, c, addr);
    } else {
      CidrHitBig(e, c, addr);
    }
  }

  lemma CidrHitLittle(e: Endianness, c: Cidr, addr: W32)
    requires e.LittleEndian?
    ensures CidrHit(e, c, addr) <==> And32(BeToHost32(e, addr), c.mask) == c.addr
  {
    Bswap32And(addr, Bswap32(c.mask));
  }

  lemma CidrHitBig(e: Endianness, c: Cidr, addr: W32)
    requires e.BigEndian?
    ensures CidrHit(e, c, addr) <==> And32(BeToHost32(e, addr), c.mask) == c.addr
  {
  }

  /** A CIDR whose address has bits outside its mask matches nothing. */
  lemma CidrOutsideMaskMatchesNothing(e: Endianness, c: Cidr, addr: W32)
    requires And32(c.addr, Not32(c.mask)) != ZERO32
    ensures !CidrHit(e, c, addr)
  {
    CidrHitHostOrder(e, c, addr);
    var h := BeToHost32(e, addr);
    OutsideMask(h.b0, c.mask.b0, c.addr.b0);
    OutsideMask(h.b1, c.mask.b1, c.addr.b1);
    OutsideMask(h.b2, c.mask.b2, c.addr.b2);
    OutsideMask(h.b3, c.mask.b3, c.addr.b3);
  }

  /** An all-ones mask matches only the CIDR's own address. */
  lemma CidrFullMaskIsExact(e: Endianness, c: Cidr, addr: W32)
    requires c.mask == W32(0xff, 0xff, 0xff, 0xff)
    ensures CidrHit(e, c, addr) <==> BeToHost32(e, addr) == c.addr
  {
    CidrHitHostOrder(e, c, addr);
    AndAllOnes(BeToHost32(e, addr));
  }

  lemma AndAllOnes(h: W32)
    ensures And32(h, W32(0xff, 0xff, 0xff, 0xff)) == h
  {
    ByteIdentities(h.b0);
    ByteIdentities(h.b1);
    ByteIdentities(h.b2);
    ByteIdentities(h.b3);
  }

  /** The zero CIDR (0.0.0.0/0) matches every address. */
  lemma CidrZeroMatchesAll(e: Endianness, addr: W32)
    ensures CidrHit(e, Cidr(ZERO32, ZERO32), addr)
  {
    var c := Cidr(ZERO32, ZERO32);
    CidrHitHostOrder(e, c, addr);
    var h := BeToHost32(e, addr);
    ByteIdentities(h.b0);
    ByteIdentities(h.b1);
    ByteIdentities(h.b2);
    ByteIdentities(h.b3);
  }

  /** A masked byte has no bits outside the mask. */
  lemma OutsideMask(x: bv8, mask: bv8, a: bv8)
    ensures x & mask == a ==> a & !mask == 0
  {
  }

  // ---------------------------------------------------------------------
  // RULE_MATCH_IP_SET

  /** The key for an address-only set: port and protocol are zero. */
  function IpSetAddrKey(e: Endianness, setId: W64, addr: W32): (k: IpSetKey)
    ensures k.mask == 8 * IP4SETKEY_SIZE && k.port == 0 && k.protocol == 0 && k.pad == 0
    ensures BeToHost64(e, k.setId) == setId && k.addr == addr
  {
    IpSetKeyOf(e, setId, addr, 0, 0)
  }

  predicate IpSetHit(e: Endianness, ipSets: IpSets, setId: W64, addr: W32)
  {
    IpSetAddrKey(e, setId, addr) in ipSets
  }

  /** An address-set lookup and a named-port lookup of the same set differ
      unless the packet's port and protocol are zero. */
  lemma IpSetKeysDiffer(e: Endianness, setId: W64, addr: W32, port: Port, protocol: Proto)
    ensures IpSetAddrKey(e, setId, addr) == IpSetKeyOf(e, setId, addr, port, protocol)
      <==> port == 0 && protocol == 0
  {
  }
}
