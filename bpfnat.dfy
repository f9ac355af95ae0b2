// The two-level NAT lookup of the BPF programs: a frontend map from
// (destination, port, protocol) to a service id and its backend count, and a
// backend map from (id, ordinal) to the new destination.

module BpfNat {
  import opened Wrappers
  import opened BpfDefs

  /** struct calico_nat_v4_key; the padding byte is zero (the key is built
      with a designated initialiser). */
  datatype NatKey = NatKey(addr: W32, port: Port, protocol: Proto)

  /** struct calico_nat_v4_value */
  datatype NatValue = NatValue(id: U32, count: U32)

  /** struct calico_nat_secondary_v4_key */
  datatype BackendKey = BackendKey(id: U32, ordinal: U32)

  /** struct calico_nat_dest */
  datatype NatDest = NatDest(addr: W32, port: Port)

  /** The hash maps cali_nat_v4 and cali_natbe_v4, which the lookup only reads. */
  type FrontendMap = map<NatKey, NatValue>
  type BackendMap = map<BackendKey, NatDest>

  /** The lookup is skipped for traffic leaving the host namespace: egress
      from a host endpoint, ingress to a workload. */
  predicate SkipsNat(flags: bv32)
  {
    (flags & CALI_TC_HOST_EP != 0 && flags & CALI_TC_INGRESS == 0)
    || (flags & CALI_TC_HOST_EP == 0 && flags & CALI_TC_INGRESS != 0)
  }

  /** `rand % count` as BPF executes it: a modulo by zero leaves the
      destination register unchanged (section 4.1 of RFC 9669). */
  function Ordinal(rand: U32, count: U32): (o: U32)
    ensures count > 0 ==> o < count
    ensures count == 0 ==> o == rand
  {
    if count == 0 then rand else rand % count
  }

  /** calico_v4_nat_lookup; `rand` is the value of bpf_get_prandom_u32. */
  function NatLookup(flags: bv32, protocol: Proto, dst: W32, dport: Port,
                     frontends: FrontendMap, backends: BackendMap, rand: U32): (r: Option<NatDest>)
    ensures SkipsNat(flags) ==> r.None?
    ensures NatKey(dst, dport, protocol) !in frontends ==> r.None?
    ensures r.Some? ==>
      var v := frontends[NatKey(dst, dport, protocol)];
      BackendKey(v.id, Ordinal(rand, v.count)) in backends
      && r.value == backends[BackendKey(v.id, Ordinal(rand, v.count))]
  {
    if SkipsNat(flags) then None
    else
      var key := NatKey(dst, dport, protocol);
      if key !in frontends then None
      else
        var v := frontends[key];
        var k2 := BackendKey(v.id, Ordinal(rand, v.count));
        if k2 in backends then Some(backends[k2]) else None
  }

  /** The skip test is the program's FROM_HOST flag: NAT is looked up only
      for traffic going towards the host. */
  lemma SkipsNatIffFromHost(flags: bv32)
    ensures SkipsNat(flags) <==> FromHost(flags)
  {
    if Hep(flags) {
      SkipsNatHep(flags);
    } else {
      SkipsNatWep(flags);
    }
  }

  lemma SkipsNatHep(flags: bv32)
    requires Hep(flags)
    ensures SkipsNat(flags) <==> FromHost(flags)
  {
  }

  lemma SkipsNatWep(flags: bv32)
    requires !Hep(flags)
    ensures SkipsNat(flags) <==> FromHost(flags)
  {
  }

  /** On a frontend hit towards the host, the result is exactly the backend
      map's entry for the chosen ordinal, or None when it has none. */
  lemma NatHit(flags: bv32, protocol: Proto, dst: W32, dport: Port,
               frontends: FrontendMap, backends: BackendMap, rand: U32)
    requires ToHost(flags)
    requires NatKey(dst, dport, protocol) in frontends
    ensures
      var v := frontends[NatKey(dst, dport, protocol)];
      var k2 := BackendKey(v.id, Ordinal(rand, v.count));
      NatLookup(flags, protocol, dst, dport, frontends, backends, rand)
        == (if k2 in backends then Some(backends[k2]) else None)
  {
    SkipsNatIffFromHost(flags);
  }

  /** A selected backend is one of the service's own: its key carries the
      frontend's id and, when the service has backends, an ordinal below
      their count. */
  lemma BackendOfService(flags: bv32, protocol: Proto, dst: W32, dport: Port,
                         frontends: FrontendMap, backends: BackendMap, rand: U32)
    requires NatLookup(flags, protocol, dst, dport, frontends, backends, rand).Some?
    ensures
      var v := frontends[NatKey(dst, dport, protocol)];
      exists ordinal: U32 :: (v.count > 0 ==> ordinal < v.count)
        && BackendKey(v.id, ordinal) in backends
        && NatLookup(flags, protocol, dst, dport, frontends, backends, rand) == Some(backends[BackendKey(v.id, ordinal)])
  {
    var v := frontends[NatKey(dst, dport, protocol)];
    var ordinal := Ordinal(rand, v.count);
    assert BackendKey(v.id, ordinal) in backends;
  }

  /** Every backend of a service can be chosen: the random value equal to
      its ordinal selects it. */
  lemma EveryBackendReachable(flags: bv32, protocol: Proto, dst: W32, dport: Port,
                              frontends: FrontendMap, backends: BackendMap, ordinal: U32)
    requires ToHost(flags)
    requires NatKey(dst, dport, protocol) in frontends
    requires ordinal < frontends[NatKey(dst, dport, protocol)].count
    requires BackendKey(frontends[NatKey(dst, dport, protocol)].id, ordinal) in backends
    ensures NatLookup(flags, protocol, dst, dport, frontends, backends, ordinal)
      == Some(backends[BackendKey(frontends[NatKey(dst, dport, protocol)].id, ordinal)])
  {
    SkipsNatIffFromHost(flags);
    var v := frontends[NatKey(dst, dport, protocol)];
    SmallModulo(ordinal, v.count);
  }

  lemma SmallModulo(x: U32, count: U32)
    requires x < count
    ensures Ordinal(x, count) == x
  {
    assert x / count == 0;
  }
}
