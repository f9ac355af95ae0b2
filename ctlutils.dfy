// calicoctl helpers: etcd path escaping, the IP version implied by the
// command-line arguments, and RFC 5396 asdot/asdot+ to asplain conversion.

module CtlUtils {
  import opened Wrappers
  import opened StrUtil

  // ---------------------------------------------------------------------
  // escape_etcd

  /** Every '/' of an etcd path replaced by '-'. */
  function EscapeEtcd(path: string): (r: string)
    ensures |r| == |path|
    ensures '/' !in r
    ensures forall i :: 0 <= i < |path| && path[i] != '/' ==> r[i] == path[i]
    ensures forall i :: 0 <= i < |path| && path[i] == '/' ==> r[i] == '-'
  {
    ReplaceChar(path, '/', '-')
  }

  /** Escaping is idempotent, and a path without '/' is already escaped. */
  lemma EscapeEtcdIdempotent(path: string)
    ensures EscapeEtcd(EscapeEtcd(path)) == EscapeEtcd(path)
    ensures '/' !in path ==> EscapeEtcd(path) == path
  {
    var e := EscapeEtcd(path);
    assert EscapeEtcd(e) == e by {
      assert forall i :: 0 <= i < |e| ==> e[i] != '/';
    }
    if '/' !in path {
      assert forall i :: 0 <= i < |path| ==> path[i] != '/';
    }
  }

  // ---------------------------------------------------------------------
  // get_container_ipv_from_arguments

  /** A positional address argument: its text (falsy when empty) and the IP
      version netaddr finds in it. */
  datatype AddrArg = AddrArg(text: string, version: int)

  predicate AddrGiven(a: Option<AddrArg>)
  {
    a.Some? && a.value.text != ""
  }

  /** The docopt arguments consulted for the IP version. */
  datatype IpvArgs = IpvArgs(
    ipv4: bool,
    ipv6: bool,
    ip: Option<AddrArg>,
    peerIp: Option<AddrArg>,
    cidr: Option<AddrArg>,
    cidrs: Option<seq<AddrArg>>,
    startIp: Option<AddrArg>)

  function GetContainerIpv(args: IpvArgs): (r: Option<int>)
    ensures args.ipv4 ==> r == Some(4)
    ensures r.None? <==>
      !args.ipv4 && !args.ipv6 && !AddrGiven(args.ip) && !AddrGiven(args.peerIp)
      && !AddrGiven(args.cidr) && !(args.cidrs.Some? && args.cidrs.value != [])
      && !AddrGiven(args.startIp)
  {
    if args.ipv4 then Some(4)
    else if args.ipv6 then Some(6)
    else if AddrGiven(args.ip) then Some(args.ip.value.version)
    else if AddrGiven(args.peerIp) then Some(args.peerIp.value.version)
    else if AddrGiven(args.cidr) then Some(args.cidr.value.version)
    else if args.cidrs.Some? && args.cidrs.value != [] then Some(args.cidrs.value[0].version)
    else if AddrGiven(args.startIp) then Some(args.startIp.value.version)
    else None
  }

  /** The sources of a version in order of precedence: whether each is given
      and the version it implies. */
  function VersionSources(args: IpvArgs): seq<(bool, int)>
  {
    [ (args.ipv4, 4),
      (args.ipv6, 6),
      (AddrGiven(args.ip), if args.ip.Some? then args.ip.value.version else 0),
      (AddrGiven(args.peerIp), if args.peerIp.Some? then args.peerIp.value.version else 0),
      (AddrGiven(args.cidr), if args.cidr.Some? then args.cidr.value.version else 0),
      (args.cidrs.Some? && args.cidrs.value != [],
       if args.cidrs.Some? && args.cidrs.value != [] then args.cidrs.value[0].version else 0),
      (AddrGiven(args.startIp), if args.startIp.Some? then args.startIp.value.version else 0) ]
  }

  /** The version of the first given source. */
  function FirstGiven(sources: seq<(bool, int)>): (r: Option<int>)
    ensures r.None? <==> forall k :: 0 <= k < |sources| ==> !sources[k].0
    ensures forall k :: 0 <= k < |sources| && sources[k].0 && (forall j :: 0 <= j < k ==> !sources[j].0) ==>
      r == Some(sources[k].1)
  {
    if sources == [] then None
    else if sources[0].0 then Some(sources[0].1)
    else
      var rest := FirstGiven(sources[1..]);
      assert forall k :: 1 <= k < |sources| ==> sources[1..][k - 1] == sources[k];
      rest
  }

  /** The version is that of the first given argument in the order --ipv4,
      --ipv6, <IP>, <PEER_IP>, <CIDR>, <CIDRS>[0], <START_IP>. */
  lemma GetContainerIpvPrecedence(args: IpvArgs)
    ensures GetContainerIpv(args) == FirstGiven(VersionSources(args))
  {
    var s := VersionSources(args);
    if args.ipv4 {
      assert s[0].0;
      assert FirstGiven(s) == Some(s[0].1);
    } else if args.ipv6 {
      assert s[1].0 && !s[0].0;
      assert FirstGiven(s) == Some(s[1].1);
    } else if AddrGiven(args.ip) {
      assert s[2].0 && !s[0].0 && !s[1].0;
      assert FirstGiven(s) == Some(s[2].1);
    } else if AddrGiven(args.peerIp) {
      assert s[3].0 && !s[0].0 && !s[1].0 && !s[2].0;
      assert FirstGiven(s) == Some(s[3].1);
    } else if AddrGiven(args.cidr) {
      assert s[4].0 && !s[0].0 && !s[1].0 && !s[2].0 && !s[3].0;
      assert FirstGiven(s) == Some(s[4].1);
    } else if args.cidrs.Some? && args.cidrs.value != [] {
      assert s[5].0 && !s[0].0 && !s[1].0 && !s[2].0 && !s[3].0 && !s[4].0;
      assert FirstGiven(s) == Some(s[5].1);
    } else if AddrGiven(args.startIp) {
      assert s[6].0 && !s[0].0 && !s[1].0 && !s[2].0 && !s[3].0 && !s[4].0 && !s[5].0;
      assert FirstGiven(s) == Some(s[6].1);
    } else {
      assert forall k :: 0 <= k < |s| ==> !s[k].0;
      assert FirstGiven(s) == None;
    }
  }

  // ---------------------------------------------------------------------
  // convert_asn_to_asplain

  /** The result of the conversion: the argument unmodified when it has no
      dot, otherwise the asplain number. */
  datatype Asn = Unchanged(text: string) | Plain(number: int)

  /** Why Python would raise: the dotted text does not split into exactly
      two parts, or a part is not an integer. */
  datatype AsnError = NotTwoParts | NotAnInteger

  function ConvertAsnToAsplain(asn: string): (r: Result<Asn, AsnError>)
    ensures '.' !in asn <==> r == Ok(Unchanged(asn))
    ensures r.Ok? && r.value.Plain? ==>
      var parts := Split(asn, '.');
      |parts| == 2 && PyInt(parts[0]).Some? && PyInt(parts[1]).Some?
      && r.value.number == 65536 * PyInt(parts[0]).value + PyInt(parts[1]).value
    ensures r == Err(NotTwoParts) <==> '.' in asn && |Split(asn, '.')| != 2
  {
    if '.' !in asn then Ok(Unchanged(asn))
    else
      var parts := Split(asn, '.');
      if |parts| != 2 then Err(NotTwoParts)
      else
        match (PyInt(parts[0]), PyInt(parts[1]))
        case (Some(high), Some(low)) => Ok(Plain(65536 * high + low))
        case _ => Err(NotAnInteger)
  }

  /** Two integer texts without dots, joined by one, convert to
      65536 * high + low. */
  lemma DottedPairConverts(a: string, b: string, high: int, low: int)
    requires '.' !in a && '.' !in b
    requires PyInt(a) == Some(high) && PyInt(b) == Some(low)
    ensures ConvertAsnToAsplain(a + "." + b) == Ok(Plain(65536 * high + low))
  {
    var s := a + "." + b;
    SplitPair(a, b, '.');
    assert a + "." + b == a + ['.'] + b;
    assert s[|a|] == '.';
  }

  /** The dotted rendering "high.low" of two decimal numbers converts to
      65536 * high + low. */
  lemma AsdotConverts(high: nat, low: nat)
    ensures ConvertAsnToAsplain(NatToString(high) + "." + NatToString(low)) == Ok(Plain(65536 * high + low))
  {
    NatToStringDigits(high);
    NatToStringDigits(low);
    PyIntOfNat(high);
    PyIntOfNat(low);
    DottedPairConverts(NatToString(high), NatToString(low), high, low);
  }

  /** The asdot+ notation of section 1 of RFC 5396 for an AS number: the
      high-order and low-order 16-bit values joined by a dot, for every
      number (asdot+ writes 0.n for the 2-byte numbers too). */
  function AsdotPlus(asn: nat): (r: string)
    ensures '.' in r
  {
    var t := NatToString(asn / 65536) + "." + NatToString(asn % 65536);
    assert t[|NatToString(asn / 65536)|] == '.';
    t
  }

  /** Converting the asdot+ notation of a number gives the number back. */
  lemma AsdotPlusRoundTrip(asn: nat)
    ensures ConvertAsnToAsplain(AsdotPlus(asn)) == Ok(Plain(asn))
  {
    var high, low := asn / 65536, asn % 65536;
    HighLowSplit(asn);
    assert Plain(65536 * high + low) == Plain(asn);
    AsdotConverts(high, low);
  }

  /** The asdot notation of section 1 of RFC 5396: numbers below 65536 are
      written as plain decimal numbers, the others as asdot+. */
  function Asdot(asn: nat): (r: string)
    ensures asn < 65536 <==> '.' !in r
  {
    if asn < 65536 then
      NatToStringDigits(asn);
      NatToString(asn)
    else AsdotPlus(asn)
  }

  /** Converting the asdot notation gives the number back: a plain 2-byte
      number is passed through as the same text, a dotted one becomes asplain. */
  lemma AsdotRoundTrip(asn: nat)
    ensures ConvertAsnToAsplain(Asdot(asn)) ==
      if asn < 65536 then Ok(Unchanged(NatToString(asn))) else Ok(Plain(asn))
  {
    if asn >= 65536 {
      AsdotPlusRoundTrip(asn);
    }
  }

  lemma HighLowSplit(asn: nat)
    ensures 65536 * (asn / 65536) + asn % 65536 == asn
  {
  }

  /** A text with more than one dot, such as "1.2.3", is refused. */
  lemma TwoDotsRefused(a: string, b: string, c: string)
    requires '.' !in a && '.' !in b
    ensures ConvertAsnToAsplain(a + "." + b + "." + c).Err?
  {
    var s := a + "." + b + "." + c;
    assert s == a + ['.'] + (b + ['.'] + c);
    assert s[|a|] == '.';
    SplitAtSep(a, b + ['.'] + c, '.');
    SplitAtSep(b, c, '.');
    assert |Split(s, '.')| == 2 + |Split(c, '.')|;
  }
}
