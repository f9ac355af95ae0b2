// A generated BPF policy program as a list of rules: each rule's match
// steps in order, and RULE_END's jump to the action of the first rule whose
// steps all pass.

module BpfRules {
  import opened Wrappers
  import opened BpfDefs
  import opened BpfPolicy

  datatype Packet = Packet(protocol: Proto, saddr: W32, daddr: W32, sport: Port, dport: Port)

  datatype Side = Source | Dest

  function AddrOf(pkt: Packet, side: Side): W32
  {
    if side == Source then pkt.saddr else pkt.daddr
  }

  function PortOf(pkt: Packet, side: Side): Port
  {
    if side == Source then pkt.sport else pkt.dport
  }

  /** The test of one RULE_MATCH_* step. */
  datatype Test =
    | Protocol(number: Proto)
    | PortRanges(side: Side, ranges: seq<PortRange>)
    | Cidrs(side: Side, cidrs: seq<Cidr>)
    | IpSet(side: Side, setId: W64)

  datatype Step = Step(test: Test, negate: bool)

  /** A rule: its steps, then RULE_END's jump to the action label. */
  datatype Rule<A> = Rule(steps: seq<Step>, action: A)

  predicate TestHolds(e: Endianness, ipSets: IpSets, t: Test, pkt: Packet)
  {
    match t
    case Protocol(n) => n == pkt.protocol
    case PortRanges(side, ranges) => PortRangesMatch(e, ipSets, ranges, AddrOf(pkt, side), PortOf(pkt, side), pkt.protocol)
    case Cidrs(side, cidrs) => exists i :: 0 <= i < |cidrs| && CidrHit(e, cidrs[i], AddrOf(pkt, side))
    case IpSet(side, id) => IpSetHit(e, ipSets, id, AddrOf(pkt, side))
  }

  predicate StepPasses(e: Endianness, ipSets: IpSets, s: Step, pkt: Packet)
  {
    !FallsThrough(TestHolds(e, ipSets, s.test, pkt), s.negate)
  }

  /** The steps in order; the first that falls through skips the rest. */
  function RuleMatches(e: Endianness, ipSets: IpSets, steps: seq<Step>, pkt: Packet): (r: bool)
    ensures r <==> forall i :: 0 <= i < |steps| ==> StepPasses(e, ipSets, steps[i], pkt)
  {
    if steps == [] then true
    else if !StepPasses(e, ipSets, steps[0], pkt) then false
    else
      var rest := RuleMatches(e, ipSets, steps[1..], pkt);
      assert forall i :: 1 <= i < |steps| ==> steps[i] == steps[1..][i - 1];
      rest
  }

  /** The rules in order: the action of the first rule all of whose steps
      pass, or None when control reaches the end of the rules. */
  function EvalRules<A(==)>(e: Endianness, ipSets: IpSets, rules: seq<Rule<A>>, pkt: Packet): (r: Option<A>)
    ensures r.None? <==> forall k :: 0 <= k < |rules| ==> !RuleMatches(e, ipSets, rules[k].steps, pkt)
    ensures r.Some? ==>
      exists k :: (0 <= k < |rules| && RuleMatches(e, ipSets, rules[k].steps, pkt)
        && r.value == rules[k].action
        && forall j :: 0 <= j < k ==> !RuleMatches(e, ipSets, rules[j].steps, pkt))
  {
    if rules == [] then None
    else if RuleMatches(e, ipSets, rules[0].steps, pkt) then Some(rules[0].action)
    else
      var rest := EvalRules(e, ipSets, rules[1..], pkt);
      assert forall k :: 1 <= k < |rules| ==> rules[k] == rules[1..][k - 1];
      if rest.Some? then
        var k :| 0 <= k < |rules[1..]| && RuleMatches(e, ipSets, rules[1..][k].steps, pkt)
          && rest.value == rules[1..][k].action
          && forall j :: 0 <= j < k ==> !RuleMatches(e, ipSets, rules[1..][j].steps, pkt);
        assert RuleMatches(e, ipSets, rules[k + 1].steps, pkt);
        rest
      else rest
  }

  /** A rule with no steps always jumps to its action, so later rules are
      never reached. */
  lemma EmptyRuleMatchesAll<A>(e: Endianness, ipSets: IpSets, pre: seq<Rule<A>>, a: A, post: seq<Rule<A>>, pkt: Packet)
    requires forall k :: 0 <= k < |pre| ==> !RuleMatches(e, ipSets, pre[k].steps, pkt)
    ensures EvalRules(e, ipSets, pre + [Rule([], a)] + post, pkt) == Some(a)
  {
    var rules := pre + [Rule([], a)] + post;
    assert rules[|pre|] == Rule([], a);
    assert forall k :: 0 <= k < |pre| ==> rules[k] == pre[k];
  }
}
