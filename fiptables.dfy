/** Rule placement in an iptables chain: `insert_rule` and
    `truncate_rules`. A chain is a sequence of rules compared by value, as
    python-iptables compares them (every parameter but the offset). */
module Fiptables {
  import opened Wrappers

  /** The position meaning "at the end". */
  const RULE_POSN_LAST: int := -1

  /** `rs` with `x` inserted before offset `p`. */
  function Inserted<R>(rs: seq<R>, p: nat, x: R): (r: seq<R>)
    requires p <= |rs|
    ensures |r| == |rs| + 1 && r[p] == x
    ensures r[..p] == rs[..p] && r[p + 1..] == rs[p..]
  {
    rs[..p] + [x] + rs[p..]
  }

  /** Index of the first rule equal to `x`. */
  function FirstIndex<R(==)>(rs: seq<R>, x: R): (k: nat)
    requires x in rs
    ensures k < |rs| && rs[k] == x && x !in rs[..k]
  {
    if rs[0] == x then 0 else 1 + FirstIndex(rs[1..], x)
  }

  /** A chain as python-iptables shows it: its rules in order. */
  class Chain<R(==)> {
    var rules: seq<R>

    constructor (rs: seq<R>)
      ensures rules == rs
    {
      rules := rs;
    }

    /** `Chain.insert_rule`: libiptc inserts before the given offset, and
        refuses (raises) an offset past the end or a negative one. */
    method InsertAt(rule: R, position: int) returns (ok: bool)
      modifies this
      ensures ok <==> 0 <= position <= |old(rules)|
      ensures ok ==> rules == Inserted(old(rules), position, rule)
      ensures !ok ==> rules == old(rules)
    {
      ok := 0 <= position <= |rules|;
      if ok {
        rules := Inserted(rules, position, rule);
      }
    }

    /** `Chain.delete_rule`: libiptc deletes the first rule equal to the
        given one. */
    method DeleteRule(rule: R)
      requires rule in rules
      modifies this
      ensures rules == old(rules[..FirstIndex(rules, rule)] + rules[FirstIndex(rules, rule) + 1..])
    {
      var k := FirstIndex(rules, rule);
      rules := rules[..k] + rules[k + 1..];
    }
  }

  /** The chain `insert_rule` leaves, or None where it raises. The position
      RULE_POSN_LAST stands for the current length. With `forcePosition` the
      rule is inserted unless it is already at that offset (a negative offset
      is looked up from the end, as Python indexing does, then refused by
      the insert); without it, only if it is nowhere in the chain. */
  function InsertRuleResult<R(==)>(rs: seq<R>, rule: R, position: int, forcePosition: bool): Option<seq<R>>
  {
    var p := if position == RULE_POSN_LAST then |rs| else position;
    if forcePosition then
      if |rs| <= p then
        (if p == |rs| then Some(Inserted(rs, p, rule)) else None)
      else if 0 <= p then
        (if rs[p] == rule then Some(rs) else Some(Inserted(rs, p, rule)))
      else if -p <= |rs| && rs[|rs| + p] == rule then Some(rs)
      else None
    else if rule in rs then Some(rs)
    else if 0 <= p <= |rs| then Some(Inserted(rs, p, rule))
    else None
  }

  /** `insert_rule`. */
  method InsertRule<R(==)>(rule: R, chain: Chain<R>, position: int, forcePosition: bool) returns (raised: bool)
    modifies chain
    ensures raised <==> InsertRuleResult(old(chain.rules), rule, position, forcePosition).None?
    ensures !raised ==> chain.rules == InsertRuleResult(old(chain.rules), rule, position, forcePosition).value
    ensures raised ==> chain.rules == old(chain.rules)
  {
    raised := false;
    var rules := chain.rules;
    var p := position;
    if p == RULE_POSN_LAST {
      p := |rules|;
    }
    if forcePosition {
      if |rules| <= p {
        var ok := chain.InsertAt(rule, p);
        raised := !ok;
      } else if 0 <= p {
        if rule != rules[p] {
          var ok := chain.InsertAt(rule, p);
          raised := !ok;
        }
      } else if -p <= |rules| {
        if rule != rules[|rules| + p] {
          var ok := chain.InsertAt(rule, p);
          raised := !ok;
        }
      } else {
        raised := true;
      }
    } else {
      if rule !in rules {
        var ok := chain.InsertAt(rule, p);
        raised := !ok;
      }
    }
  }

  /** RULE_POSN_LAST appends a rule that is not already in place. */
  lemma PosnLastAppends<R>(rs: seq<R>, rule: R, forcePosition: bool)
    requires forcePosition || rule !in rs
    ensures InsertRuleResult(rs, rule, RULE_POSN_LAST, forcePosition) == Some(rs + [rule])
  {
    assert Inserted(rs, |rs|, rule) == rs + [rule];
  }

  /** `insert_rule` never removes a rule: the chain grows by at most one,
      and deleting the inserted rule gives back the old chain. */
  lemma InsertRuleOnlyAdds<R>(rs: seq<R>, rule: R, position: int, forcePosition: bool)
    requires InsertRuleResult(rs, rule, position, forcePosition).Some?
    ensures var r := InsertRuleResult(rs, rule, position, forcePosition).value;
      r == rs || exists p :: 0 <= p <= |rs| && r == rs[..p] + [rule] + rs[p..]
  {
    var r := InsertRuleResult(rs, rule, position, forcePosition).value;
    if r != rs {
      var p := if position == RULE_POSN_LAST then |rs| else position;
      assert 0 <= p <= |rs| && r == rs[..p] + [rule] + rs[p..];
    }
  }

  /** Afterwards the rule is in the chain, so without `forcePosition` a
      second call changes nothing. */
  lemma InsertRuleIdempotent<R>(rs: seq<R>, rule: R, position: int, position2: int)
    requires InsertRuleResult(rs, rule, position, false).Some?
    ensures var r := InsertRuleResult(rs, rule, position, false).value;
      rule in r && InsertRuleResult(r, rule, position2, false) == Some(r)
  {
    var r := InsertRuleResult(rs, rule, position, false).value;
    if rule !in rs {
      var p := if position == RULE_POSN_LAST then |rs| else position;
      assert r[p] == rule;
    }
  }

  /** With `forcePosition` the rule ends up at the requested offset, so the
      same call again changes nothing. */
  lemma ForcedInsertIdempotent<R>(rs: seq<R>, rule: R, position: nat)
    requires position <= |rs|
    ensures var r := InsertRuleResult(rs, rule, position, true).value;
      position < |r| && r[position] == rule && InsertRuleResult(r, rule, position, true) == Some(r)
  {
  }

  /** The chain `truncate_rules` leaves: while too long, the first rule equal
      to the last one is deleted. */
  function TruncatedAsWritten<R(==)>(rs: seq<R>, count: nat): (r: seq<R>)
    ensures |r| == if |rs| <= count then |rs| else count
    decreases |rs|
  {
    if |rs| <= count then rs
    else
      var k := FirstIndex(rs, rs[|rs| - 1]);
      TruncatedAsWritten(rs[..k] + rs[k + 1..], count)
  }

  /** `truncate_rules`, as written. */
  method TruncateRules<R(==)>(chain: Chain<R>, count: nat)
    modifies chain
    ensures chain.rules == TruncatedAsWritten(old(chain.rules), count)
  {
    while |chain.rules| > count
      invariant TruncatedAsWritten(chain.rules, count) == TruncatedAsWritten(old(chain.rules), count)
      decreases |chain.rules|
    {
      var rule := chain.rules[|chain.rules| - 1];
      chain.DeleteRule(rule);
    }
  }

  /** When the last rule also occurs earlier, its first occurrence is the
      one deleted: truncating [A, B, A] to 2 rules gives [B, A], not the
      two leading rules. */
  lemma TruncateDeletesEarlierDuplicate()
    ensures TruncatedAsWritten(["A", "B", "A"], 2) == ["B", "A"]
    ensures TruncatedAsWritten(["A", "B", "A"], 2) != ["A", "B", "A"][..2]
  {
    var rs := ["A", "B", "A"];
    assert FirstIndex(rs, rs[2]) == 0;
    assert rs[..0] + rs[1..] == ["B", "A"];
  }

  /** The chain `truncate_rules` is meant to leave: its first `count` rules. */
  function Truncated<R>(rs: seq<R>, count: nat): (r: seq<R>)
    ensures |r| == if |rs| <= count then |rs| else count
    ensures r == rs[..|r|]
  {
    if |rs| <= count then rs else rs[..count]
  }

  /** Deletion by offset (libiptc's delete by rule number): the rule at the
      last offset goes, whatever rules equal it come earlier. */
  method DeleteLast<R(==)>(chain: Chain<R>)
    requires chain.rules != []
    modifies chain
    ensures chain.rules == old(chain.rules)[..|old(chain.rules)| - 1]
  {
    chain.rules := chain.rules[..|chain.rules| - 1];
  }

  /** `truncate_rules` deleting the last rule by offset: the first `count`
      rules stay, in order, and everything after them goes. */
  method TruncateRulesByOffset<R(==)>(chain: Chain<R>, count: nat)
    modifies chain
    ensures chain.rules == Truncated(old(chain.rules), count)
  {
    ghost var rs := chain.rules;
    while |chain.rules| > count
      invariant |chain.rules| <= |rs| && chain.rules == rs[..|chain.rules|]
      invariant |rs| > count ==> |chain.rules| >= count
      invariant |rs| <= count ==> chain.rules == rs
      decreases |chain.rules|
    {
      DeleteLast(chain);
    }
  }

  /** Truncating twice to the same count is truncating once. */
  lemma TruncatedIdempotent<R>(rs: seq<R>, count: nat)
    ensures Truncated(Truncated(rs, count), count) == Truncated(rs, count)
  {
  }
}
