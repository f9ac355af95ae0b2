// Translation of Neutron security-group rules and ports into the etcd data
// model used by the Calico OpenStack driver.

module TEtcd {
  import opened Wrappers
  import opened StrUtil

  /** The Python value held in a Neutron rule's `protocol` field: None, an
      integer (Neutron uses -1 for "any") or a protocol name. In a
      translated rule `NoProtocol` stands for an absent `protocol` key. */
  datatype Protocol = NoProtocol | ProtocolNumber(n: int) | ProtocolName(name: string)

  datatype NeutronRule = NeutronRule(
    ethertype: string,
    protocol: Protocol,
    remoteIpPrefix: Option<string>,
    remoteGroupId: Option<string>,
    portRangeMin: Option<int>,
    portRangeMax: Option<int>,
    direction: string)

  /** One entry of a `dst_ports` list: a bare port number or a "lo:hi" string. */
  datatype PortSpecEntry = PortNumber(port: int) | PortRange(range: string)

  /** The etcd rule dictionary; `None` fields are keys that are not set. */
  datatype EtcdRule = EtcdRule(
    ipVersion: int,
    protocol: Protocol,
    icmpType: Option<int>,
    icmpCode: Option<int>,
    srcTag: Option<string>,
    srcNet: Option<string>,
    dstTag: Option<string>,
    dstNet: Option<string>,
    dstPorts: Option<seq<PortSpecEntry>>)

  predicate KnownEthertype(ethertype: string)
  {
    ethertype == "IPv4" || ethertype == "IPv6"
  }

  /** Python truthiness of an optional string: present and non-empty. */
  predicate Truthy(s: Option<string>)
  {
    s.Some? && s.value != ""
  }

  /** `'%s' % v` for an optional integer. */
  function PyStr(v: Option<int>): string
  {
    if v.None? then "None" else IntToString(v.value)
  }

  predicate IsIcmp(rule: NeutronRule)
  {
    rule.protocol == ProtocolName("icmp")
  }

  /** The value of an optional ICMP field unless it is None or -1. */
  function IcmpField(v: Option<int>): Option<int>
  {
    if v.Some? && v.value != -1 then v else None
  }

  function TranslatedProtocol(v4: bool, p: Protocol): Protocol
  {
    match p
    case NoProtocol => NoProtocol
    case ProtocolNumber(n) => if n == -1 then NoProtocol else p
    case ProtocolName(name) =>
      if name == "icmp" then ProtocolName(if v4 then "icmp" else "icmpv6") else p
  }

  /** The `port_spec` built from a non-ICMP rule's port range. */
  function PortSpec(lo: Option<int>, hi: Option<int>): Option<seq<PortSpecEntry>>
  {
    if lo == Some(-1) then Some([PortRange("1:65535")])
    else if lo == hi then (if lo.Some? then Some([PortNumber(lo.value)]) else None)
    else Some([PortRange(PyStr(lo) + ":" + PyStr(hi))])
  }

  /** The remote network after the "any address" default: when neither a
      prefix nor a group is given, the whole address family. */
  function RemoteNet(v4: bool, rule: NeutronRule): Option<string>
  {
    if !(Truthy(rule.remoteIpPrefix) || Truthy(rule.remoteGroupId)) then
      Some(if v4 then "0.0.0.0/0" else "::/0")
    else rule.remoteIpPrefix
  }

  /** `_neutron_rule_to_etcd_rule`; `None` when the ethertype lookup raises. */
  function NeutronRuleToEtcdRule(rule: NeutronRule): (r: Option<EtcdRule>)
    ensures r.Some? <==> KnownEthertype(rule.ethertype)
    ensures r.Some? ==> r.value.ipVersion == (if rule.ethertype == "IPv4" then 4 else 6)
  {
    if !KnownEthertype(rule.ethertype) then None
    else
      var v4 := rule.ethertype == "IPv4";
      var proto := TranslatedProtocol(v4, rule.protocol);
      var net := RemoteNet(v4, rule);
      var icmpType := if IsIcmp(rule) then IcmpField(rule.portRangeMin) else None;
      var icmpCode := if IsIcmp(rule) then IcmpField(rule.portRangeMax) else None;
      var ports := if IsIcmp(rule) then None else PortSpec(rule.portRangeMin, rule.portRangeMax);
      if rule.direction == "ingress" then
        Some(EtcdRule(if v4 then 4 else 6, proto, icmpType, icmpCode, rule.remoteGroupId, net, None, None, ports))
      else
        Some(EtcdRule(if v4 then 4 else 6, proto, icmpType, icmpCode, None, None, rule.remoteGroupId, net, ports))
  }

  /** A protocol of None or -1 is omitted, "icmp" is renamed by address
      family, and anything else is copied. */
  lemma ProtocolTranslation(rule: NeutronRule)
    requires KnownEthertype(rule.ethertype)
    ensures var p := NeutronRuleToEtcdRule(rule).value.protocol;
      && (p == NoProtocol <==> rule.protocol == NoProtocol || rule.protocol == ProtocolNumber(-1))
      && (IsIcmp(rule) ==> p == ProtocolName(if rule.ethertype == "IPv4" then "icmp" else "icmpv6"))
      && (!IsIcmp(rule) && rule.protocol != ProtocolNumber(-1) ==> p == rule.protocol)
  {
  }

  /** The net written on the rule's remote side: src for ingress, dst otherwise. */
  function RemoteSideNet(r: EtcdRule, ingress: bool): Option<string>
  {
    if ingress then r.srcNet else r.dstNet
  }

  function RemoteSideTag(r: EtcdRule, ingress: bool): Option<string>
  {
    if ingress then r.srcTag else r.dstTag
  }

  /** Ingress rules set only src_tag/src_net, egress rules only
      dst_tag/dst_net; the tag is the remote group, the net is the prefix
      or, with neither prefix nor group, the family's whole range. */
  lemma RemoteSide(rule: NeutronRule)
    requires KnownEthertype(rule.ethertype)
    ensures var r := NeutronRuleToEtcdRule(rule).value;
      var ingress := rule.direction == "ingress";
      && RemoteSideTag(r, !ingress) == None && RemoteSideNet(r, !ingress) == None
      && RemoteSideTag(r, ingress) == rule.remoteGroupId
      && (!Truthy(rule.remoteIpPrefix) && !Truthy(rule.remoteGroupId) ==>
            RemoteSideNet(r, ingress) == Some(if rule.ethertype == "IPv4" then "0.0.0.0/0" else "::/0"))
      && (Truthy(rule.remoteIpPrefix) || Truthy(rule.remoteGroupId) ==>
            RemoteSideNet(r, ingress) == rule.remoteIpPrefix)
  {
  }

  /** Every translated rule names its remote end, by a tag or by a net. */
  lemma RemoteEndAlwaysConstrained(rule: NeutronRule)
    requires KnownEthertype(rule.ethertype)
    ensures var r := NeutronRuleToEtcdRule(rule).value;
      var ingress := rule.direction == "ingress";
      RemoteSideTag(r, ingress).Some? || RemoteSideNet(r, ingress).Some?
  {
    RemoteSide(rule);
  }

  /** ICMP rules carry the port range as type/code and no ports; other
      rules carry no ICMP fields. */
  lemma IcmpFields(rule: NeutronRule)
    requires KnownEthertype(rule.ethertype)
    ensures var r := NeutronRuleToEtcdRule(rule).value;
      && (IsIcmp(rule) ==> r.dstPorts.None?)
      && (IsIcmp(rule) ==> (r.icmpType.Some? <==> rule.portRangeMin.Some? && rule.portRangeMin != Some(-1)))
      && (IsIcmp(rule) && r.icmpType.Some? ==> r.icmpType == rule.portRangeMin)
      && (IsIcmp(rule) ==> (r.icmpCode.Some? <==> rule.portRangeMax.Some? && rule.portRangeMax != Some(-1)))
      && (IsIcmp(rule) && r.icmpCode.Some? ==> r.icmpCode == rule.portRangeMax)
      && (!IsIcmp(rule) ==> r.icmpType.None? && r.icmpCode.None?)
  {
  }

  /** The destination ports of a non-ICMP rule, case by case. */
  lemma PortSpecCases(rule: NeutronRule)
    requires KnownEthertype(rule.ethertype) && !IsIcmp(rule)
    ensures var ports := NeutronRuleToEtcdRule(rule).value.dstPorts;
      var lo := rule.portRangeMin;
      var hi := rule.portRangeMax;
      && (lo == Some(-1) ==> ports == Some([PortRange("1:65535")]))
      && (lo != Some(-1) && lo == hi && lo.Some? ==> ports == Some([PortNumber(lo.value)]))
      && (lo.None? && hi.None? ==> ports.None?)
      && (lo != Some(-1) && lo != hi ==> ports == Some([PortRange(PyStr(lo) + ":" + PyStr(hi))]))
  {
  }

  lemma NoColonInInt(n: int)
    ensures ':' !in IntToString(n)
  {
    var r := IntToString(n);
    if n >= 0 {
      assert AllDigits(r);
      assert forall i :: 0 <= i < |r| ==> IsDigit(r[i]);
    } else {
      var d := NatToString(-n);
      assert forall i :: 0 <= i < |d| ==> IsDigit(d[i]);
      assert r == "-" + d;
    }
  }

  /** A port-range string built from two known bounds splits back on ':'
      into the two bounds, which `int()` reads back unchanged. */
  lemma PortRangeRoundTrip(lo: int, hi: int)
    ensures var parts := Split(PyStr(Some(lo)) + ":" + PyStr(Some(hi)), ':');
      |parts| == 2 && PyInt(parts[0]) == Some(lo) && PyInt(parts[1]) == Some(hi)
  {
    NoColonInInt(lo);
    NoColonInInt(hi);
    assert PyStr(Some(lo)) + ":" + PyStr(Some(hi)) == IntToString(lo) + [':'] + IntToString(hi);
    SplitAtSep(IntToString(lo), IntToString(hi), ':');
    SplitWithoutSep(IntToString(hi), ':');
    PyIntOfIntToString(lo);
    PyIntOfIntToString(hi);
  }

  // ---------------------------------------------------------------------
  // Ports.

  datatype FixedIp = FixedIp(ipAddress: string, gateway: Option<string>)

  datatype NeutronPort = NeutronPort(
    adminStateUp: bool,
    interfaceName: string,
    macAddress: string,
    securityGroups: seq<string>,
    fixedIps: seq<FixedIp>)

  /** The endpoint dictionary written for a port; absent gateways are `None`. */
  datatype EndpointData = EndpointData(
    state: string,
    name: string,
    mac: string,
    profileId: seq<string>,
    ipv4Gateway: Option<string>,
    ipv6Gateway: Option<string>,
    ipv4Nets: seq<string>,
    ipv6Nets: seq<string>)

  /** An address with a ':' is IPv6, anything else IPv4. */
  predicate IsV6(ip: FixedIp)
  {
    ':' in ip.ipAddress
  }

  function HostSuffix(v6: bool): string
  {
    if v6 then "/128" else "/32"
  }

  /** The host networks of one family, in the order of the fixed IPs. */
  function FamilyNets(ips: seq<FixedIp>, v6: bool): seq<string>
  {
    if ips == [] then []
    else
      var last := ips[|ips| - 1];
      FamilyNets(ips[..|ips| - 1], v6) + (if IsV6(last) == v6 then [last.ipAddress + HostSuffix(v6)] else [])
  }

  /** The gateway of the last fixed IP of the family that has one. */
  function LastGateway(ips: seq<FixedIp>, v6: bool): Option<string>
  {
    if ips == [] then None
    else
      var last := ips[|ips| - 1];
      if IsV6(last) == v6 && last.gateway.Some? then last.gateway
      else LastGateway(ips[..|ips| - 1], v6)
  }

  function PortData(port: NeutronPort): EndpointData
  {
    EndpointData(
      if port.adminStateUp then "active" else "inactive",
      port.interfaceName, port.macAddress, port.securityGroups,
      LastGateway(port.fixedIps, false), LastGateway(port.fixedIps, true),
      FamilyNets(port.fixedIps, false), FamilyNets(port.fixedIps, true))
  }

  /** `port_etcd_data`: one pass over the fixed IPs sorting them by family. */
  method PortEtcdData(port: NeutronPort) returns (data: EndpointData)
    ensures data == PortData(port)
  {
    var ips := port.fixedIps;
    var ipv4Nets: seq<string> := [];
    var ipv6Nets: seq<string> := [];
    var gw4: Option<string> := None;
    var gw6: Option<string> := None;
    var k := 0;
    while k < |ips|
      invariant 0 <= k <= |ips|
      invariant ipv4Nets == FamilyNets(ips[..k], false)
      invariant ipv6Nets == FamilyNets(ips[..k], true)
      invariant gw4 == LastGateway(ips[..k], false)
      invariant gw6 == LastGateway(ips[..k], true)
    {
      var ip := ips[k];
      assert ips[..k + 1][..k] == ips[..k];
      if ':' in ip.ipAddress {
        ipv6Nets := ipv6Nets + [ip.ipAddress + "/128"];
        if ip.gateway.Some? {
          gw6 := ip.gateway;
        }
      } else {
        ipv4Nets := ipv4Nets + [ip.ipAddress + "/32"];
        if ip.gateway.Some? {
          gw4 := ip.gateway;
        }
      }
      k := k + 1;
    }
    assert ips[..k] == ips;
    data := EndpointData(if port.adminStateUp then "active" else "inactive",
      port.interfaceName, port.macAddress, port.securityGroups, gw4, gw6, ipv4Nets, ipv6Nets);
  }

  /** A net is listed for a family exactly when some fixed IP of that family
      has that address, with the family's host suffix. */
  lemma {:induction false} FamilyNetsMembers(ips: seq<FixedIp>, v6: bool, s: string)
    ensures s in FamilyNets(ips, v6) <==>
      exists k :: 0 <= k < |ips| && IsV6(ips[k]) == v6 && s == ips[k].ipAddress + HostSuffix(v6)
  {
    if ips != [] {
      var init := ips[..|ips| - 1];
      FamilyNetsMembers(init, v6, s);
      if s in FamilyNets(ips, v6) {
        if s in FamilyNets(init, v6) {
          var k :| 0 <= k < |init| && IsV6(init[k]) == v6 && s == init[k].ipAddress + HostSuffix(v6);
          assert ips[k] == init[k];
        } else {
          assert IsV6(ips[|ips| - 1]) == v6 && s == ips[|ips| - 1].ipAddress + HostSuffix(v6);
        }
      } else {
        forall k | 0 <= k < |ips| && IsV6(ips[k]) == v6
          ensures s != ips[k].ipAddress + HostSuffix(v6)
        {
          if k < |init| {
            assert ips[k] == init[k];
          }
        }
      }
    }
  }

  /** The gateway written for a family is the last non-None one of that
      family; there is none exactly when no IP of the family has one. */
  lemma {:induction false} LastGatewayWins(ips: seq<FixedIp>, v6: bool, g: string)
    ensures LastGateway(ips, v6) == Some(g) <==>
      exists k :: 0 <= k < |ips| && IsV6(ips[k]) == v6 && ips[k].gateway == Some(g) &&
        forall j :: k < j < |ips| && IsV6(ips[j]) == v6 ==> ips[j].gateway.None?
  {
    if ips != [] {
      var n := |ips| - 1;
      var init := ips[..n];
      LastGatewayWins(init, v6, g);
      if IsV6(ips[n]) == v6 && ips[n].gateway.Some? {
        if ips[n].gateway != Some(g) {
          forall k | 0 <= k < |ips| && IsV6(ips[k]) == v6 && ips[k].gateway == Some(g)
            ensures exists j :: k < j < |ips| && IsV6(ips[j]) == v6 && ips[j].gateway.Some?
          {
            assert k < n;
          }
        }
      } else {
        if LastGateway(ips, v6) == Some(g) {
          var k :| 0 <= k < |init| && IsV6(init[k]) == v6 && init[k].gateway == Some(g) &&
            forall j :: k < j < |init| && IsV6(init[j]) == v6 ==> init[j].gateway.None?;
          assert ips[k] == init[k];
          assert forall j :: k < j < |ips| && IsV6(ips[j]) == v6 ==> ips[j].gateway.None? by {
            forall j | k < j < |ips| && IsV6(ips[j]) == v6
              ensures ips[j].gateway.None?
            {
              if j < n {
                assert ips[j] == init[j];
              }
            }
          }
        } else {
          forall k | 0 <= k < |ips| && IsV6(ips[k]) == v6 && ips[k].gateway == Some(g)
            ensures exists j :: k < j < |ips| && IsV6(ips[j]) == v6 && ips[j].gateway.Some?
          {
            assert k < n;
            assert ips[k] == init[k];
            var j :| k < j < |init| && IsV6(init[j]) == v6 && init[j].gateway.Some?;
            assert ips[j] == init[j];
          }
        }
      }
    }
  }

  /** The endpoint is active exactly when the port's admin state is up. */
  lemma PortState(port: NeutronPort)
    ensures PortData(port).state == "active" <==> port.adminStateUp
  {
  }

  // ---------------------------------------------------------------------
  // Profiles.

  /** `profile_tags`: the profile id split on '_'; the tags join back to the id. */
  function ProfileTags(profileId: string): (r: seq<string>)
    ensures Join(r, "_") == profileId
    ensures forall k :: 0 <= k < |r| ==> '_' !in r[k]
  {
    JoinSplit(profileId, '_');
    Split(profileId, '_')
  }

  /** A list comprehension over `_neutron_rule_to_etcd_rule`, which raises
      (None) as soon as one rule has an unknown ethertype. */
  function TranslateRules(rules: seq<NeutronRule>): (r: Option<seq<EtcdRule>>)
    ensures r.Some? <==> forall k :: 0 <= k < |rules| ==> KnownEthertype(rules[k].ethertype)
    ensures r.Some? ==> |r.value| == |rules|
    ensures r.Some? ==> forall k :: 0 <= k < |rules| ==> Some(r.value[k]) == NeutronRuleToEtcdRule(rules[k])
  {
    if rules == [] then Some([])
    else
      match NeutronRuleToEtcdRule(rules[0])
      case None => None
      case Some(first) =>
        var rest := TranslateRules(rules[1..]);
        assert forall k :: 1 <= k < |rules| ==> rules[k] == rules[1..][k - 1];
        if rest.None? then None else Some([first] + rest.value)
  }

  datatype ProfileRuleLists = ProfileRuleLists(inboundRules: seq<EtcdRule>, outboundRules: seq<EtcdRule>)

  /** `profile_rules`: both rule lists translated element by element, in order. */
  function ProfileRules(inbound: seq<NeutronRule>, outbound: seq<NeutronRule>): (r: Option<ProfileRuleLists>)
    ensures r.Some? <==> TranslateRules(inbound).Some? && TranslateRules(outbound).Some?
    ensures r.Some? ==> |r.value.inboundRules| == |inbound| && |r.value.outboundRules| == |outbound|
    ensures r.Some? ==> forall k :: 0 <= k < |inbound| ==>
      Some(r.value.inboundRules[k]) == NeutronRuleToEtcdRule(inbound[k])
    ensures r.Some? ==> forall k :: 0 <= k < |outbound| ==>
      Some(r.value.outboundRules[k]) == NeutronRuleToEtcdRule(outbound[k])
  {
    var i := TranslateRules(inbound);
    var o := TranslateRules(outbound);
    if i.None? || o.None? then None else Some(ProfileRuleLists(i.value, o.value))
  }
}
