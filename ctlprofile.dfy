// calicoctl profile commands: the port-list parser and the add/remove
// logic applied to a profile's inbound or outbound rule list.

module CtlProfile {
  import opened Wrappers
  import opened StrUtil

  const MAX_PORT := 65535

  // ---------------------------------------------------------------------
  // Port lists.

  /** One parsed entry: a lone port, or a range in its canonical "min:max" text. */
  datatype PortItem = LonePort(port: int) | PortRangeText(text: string)

  /** The reasons `parse_ports` exits. */
  datatype PortsError =
    | PortsInvalid
    | RangeMinAboveMax(lo: int, hi: int)
    | MinOutOfRange(lo: int)
    | MaxOutOfRange(hi: int)
    | PortOutOfRange(port: int)

  predicate IsRangeSep(c: char)
  {
    c == ':' || c == '-'
  }

  /** The index of the first ':' or '-', or the length when there is none. */
  function FirstSep(p: string): (r: nat)
    ensures r <= |p|
    ensures r < |p| ==> IsRangeSep(p[r])
    ensures forall j :: 0 <= j < r ==> !IsRangeSep(p[j])
  {
    if p == [] then 0 else if IsRangeSep(p[0]) then 0 else 1 + FirstSep(p[1..])
  }

  /** `\d+`: one or more ASCII digits. */
  predicate Digits1(s: string)
  {
    s != [] && AllDigits(s)
  }

  /** A piece matching `^(\d+)[:-](\d+)$`. */
  predicate IsRangeItem(p: string)
  {
    var i := FirstSep(p);
    i < |p| && Digits1(p[..i]) && Digits1(p[i + 1..])
  }

  predicate ValidItem(p: string)
  {
    Digits1(p) || IsRangeItem(p)
  }

  /** `^(\d+([:-]\d+)?)(,\d+([:-]\d+)?)*$`: every comma-separated piece is a
      port or a range. */
  predicate MatchesPortList(s: string)
  {
    forall piece :: piece in Split(s, ',') ==> ValidItem(piece)
  }

  /** Python's `$` also matches just before a final newline, and `int()`
      ignores that newline, so the parse sees the string without it. */
  function DropFinalNewline(s: string): string
  {
    if s != [] && s[|s| - 1] == '\n' then s[..|s| - 1] else s
  }

  /** One piece of a valid list: a range is checked and canonicalised, a
      lone port is range-checked. */
  function ParseItem(p: string): Result<PortItem, PortsError>
    requires ValidItem(p)
  {
    if IsRangeItem(p) then
      var i := FirstSep(p);
      var lo := DigitsValue(p[..i]);
      var hi := DigitsValue(p[i + 1..]);
      if lo > hi then Err(RangeMinAboveMax(lo, hi))
      else if lo > MAX_PORT then Err(MinOutOfRange(lo))
      else if hi > MAX_PORT then Err(MaxOutOfRange(hi))
      else Ok(PortRangeText(NatToString(lo) + ":" + NatToString(hi)))
    else
      var port := DigitsValue(p);
      if port > MAX_PORT then Err(PortOutOfRange(port)) else Ok(LonePort(port))
  }

  /** The pieces parsed in order; the first failing piece ends the parse. */
  function ParseItems(pieces: seq<string>): (r: Result<seq<PortItem>, PortsError>)
    requires forall k :: 0 <= k < |pieces| ==> ValidItem(pieces[k])
    ensures r.Ok? ==> |r.value| == |pieces|
    ensures r.Ok? ==> forall k :: 0 <= k < |pieces| ==> ParseItem(pieces[k]) == Ok(r.value[k])
  {
    if pieces == [] then Ok([])
    else
      var init := pieces[..|pieces| - 1];
      match ParseItems(init)
      case Err(e) => Err(e)
      case Ok(prefix) =>
        match ParseItem(pieces[|pieces| - 1])
        case Err(e) => Err(e)
        case Ok(item) => Ok(prefix + [item])
  }

  /** `parse_ports` as a value: None for no input, an error where it exits. */
  function PortsParse(portsStr: Option<string>): Result<Option<seq<PortItem>>, PortsError>
  {
    if portsStr.None? then Ok(None)
    else
      var s := DropFinalNewline(portsStr.value);
      if !MatchesPortList(s) then Err(PortsInvalid)
      else
        var pieces := Split(s, ',');
        match ParseItems(pieces)
        case Err(e) => Err(e)
        case Ok(items) => Ok(Some(items))
  }

  lemma ParseItemsStep(pieces: seq<string>, k: nat, prefix: seq<PortItem>, item: PortItem)
    requires k < |pieces| && forall j :: 0 <= j < |pieces| ==> ValidItem(pieces[j])
    requires ParseItems(pieces[..k]) == Ok(prefix) && ParseItem(pieces[k]) == Ok(item)
    ensures ParseItems(pieces[..k + 1]) == Ok(prefix + [item])
  {
    assert pieces[..k + 1][..k] == pieces[..k];
  }

  lemma {:induction false} ParseItemsPrefixFails(pieces: seq<string>, n: nat)
    requires n <= |pieces| && forall j :: 0 <= j < |pieces| ==> ValidItem(pieces[j])
    requires ParseItems(pieces[..n]).Err?
    ensures ParseItems(pieces) == ParseItems(pieces[..n])
    decreases |pieces| - n
  {
    if n < |pieces| {
      assert pieces[..n + 1][..n] == pieces[..n];
      ParseItemsPrefixFails(pieces, n + 1);
    } else {
      assert pieces[..n] == pieces;
    }
  }

  lemma PiecesValid(s: string)
    requires MatchesPortList(s)
    ensures forall k :: 0 <= k < |Split(s, ',')| ==> ValidItem(Split(s, ',')[k])
  {
    var pieces := Split(s, ',');
    forall k | 0 <= k < |pieces|
      ensures ValidItem(pieces[k])
    {
      assert pieces[k] in pieces;
    }
  }

  /** The body of the `parse_ports` loop for one piece. */
  method ParsePiece(split: string) returns (r: Result<PortItem, PortsError>)
    requires ValidItem(split)
    ensures r == ParseItem(split)
  {
    if IsRangeItem(split) {
      var i := FirstSep(split);
      var lo := DigitsValue(split[..i]);
      var hi := DigitsValue(split[i + 1..]);
      if lo > hi {
        return Err(RangeMinAboveMax(lo, hi));
      }
      if !(0 <= lo <= MAX_PORT) {
        return Err(MinOutOfRange(lo));
      }
      if !(0 <= hi <= MAX_PORT) {
        return Err(MaxOutOfRange(hi));
      }
      r := Ok(PortRangeText(NatToString(lo) + ":" + NatToString(hi)));
    } else {
      var port := DigitsValue(split);
      if !(0 <= port <= MAX_PORT) {
        return Err(PortOutOfRange(port));
      }
      r := Ok(LonePort(port));
    }
  }

  /** `parse_ports`: the validating match, the split on ',', then one
      append per piece. */
  method ParsePorts(portsStr: Option<string>) returns (r: Result<Option<seq<PortItem>>, PortsError>)
    ensures r == PortsParse(portsStr)
  {
    if portsStr.None? {
      return Ok(None);
    }
    var s := DropFinalNewline(portsStr.value);
    if !MatchesPortList(s) {
      return Err(PortsInvalid);
    }
    var splits := Split(s, ',');
    PiecesValid(s);
    var parsedPorts: seq<PortItem> := [];
    var k := 0;
    while k < |splits|
      invariant 0 <= k <= |splits|
      invariant ParseItems(splits[..k]) == Ok(parsedPorts)
    {
      var split := splits[k];
      var item := ParsePiece(split);
      if item.Err? {
        ParseItemsPrefixFails(splits, k + 1);
        assert splits[..k + 1][..k] == splits[..k];
        return Err(item.error);
      }
      ParseItemsStep(splits, k, parsedPorts, item.value);
      parsedPorts := parsedPorts + [item.value];
      k := k + 1;
    }
    assert splits[..k] == splits;
    r := Ok(Some(parsedPorts));
  }

  /** A canonical entry: a port in 0..65535, or "lo:hi" with lo <= hi <= 65535. */
  predicate Canonical(item: PortItem)
  {
    match item
    case LonePort(p) => 0 <= p <= MAX_PORT
    case PortRangeText(t) =>
      exists lo: nat, hi: nat :: lo <= hi <= MAX_PORT && t == NatToString(lo) + ":" + NatToString(hi)
  }

  lemma ParseItemCanonical(p: string)
    requires ValidItem(p) && ParseItem(p).Ok?
    ensures Canonical(ParseItem(p).value)
  {
    if IsRangeItem(p) {
      var i := FirstSep(p);
      var lo := DigitsValue(p[..i]);
      var hi := DigitsValue(p[i + 1..]);
      assert lo <= hi <= MAX_PORT && ParseItem(p).value.text == NatToString(lo) + ":" + NatToString(hi);
    }
  }

  /** Every entry of a successful parse is canonical and in port range. */
  lemma ParsedPortsCanonical(portsStr: Option<string>)
    requires PortsParse(portsStr).Ok? && PortsParse(portsStr).value.Some?
    ensures forall k :: 0 <= k < |PortsParse(portsStr).value.value| ==> Canonical(PortsParse(portsStr).value.value[k])
  {
    var s := DropFinalNewline(portsStr.value);
    var pieces := Split(s, ',');
    var items := PortsParse(portsStr).value.value;
    forall k | 0 <= k < |items|
      ensures Canonical(items[k])
    {
      assert pieces[k] in pieces;
      ParseItemCanonical(pieces[k]);
    }
  }

  /** A range whose minimum exceeds its maximum is refused. */
  lemma DescendingRangeRefused(lo: nat, hi: nat)
    requires lo > hi
    ensures PortsParse(Some(NatToString(lo) + ":" + NatToString(hi))) == Err(RangeMinAboveMax(lo, hi))
  {
    var p := NatToString(lo) + ":" + NatToString(hi);
    RangeTextParses(lo, hi);
    RangeTextShape(lo, hi);
    SinglePiece(p);
    var i := FirstSep(p);
    assert DigitsValue(p[..i]) == lo && DigitsValue(p[i + 1..]) == hi;
  }

  /** A list of one piece parses as that piece alone. */
  lemma SinglePiece(p: string)
    requires ValidItem(p) && ',' !in p && p != [] && p[|p| - 1] != '\n'
    ensures PortsParse(Some(p)) == (match ParseItem(p) case Err(e) => Err(e) case Ok(item) => Ok(Some([item])))
  {
    assert DropFinalNewline(p) == p;
    SplitWithoutSep(p, ',');
    assert MatchesPortList(p);
    assert [p][..0] == [];
    assert ParseItems([]) == Ok([]);
    if ParseItem(p).Ok? {
      assert [] + [ParseItem(p).value] == [ParseItem(p).value];
      assert ParseItems([p]) == Ok([ParseItem(p).value]);
    }
  }

  /** The text of a canonical entry, as it would be typed back. */
  function RenderItem(item: PortItem): string
  {
    match item
    case LonePort(p) => if p >= 0 then NatToString(p) else IntToString(p)
    case PortRangeText(t) => t
  }

  function RenderItems(items: seq<PortItem>): (r: seq<string>)
    ensures |r| == |items|
    ensures forall k :: 0 <= k < |items| ==> r[k] == RenderItem(items[k])
  {
    if items == [] then [] else [RenderItem(items[0])] + RenderItems(items[1..])
  }

  lemma DigitsOnlyAreNotSeps(s: string)
    requires AllDigits(s)
    ensures forall j :: 0 <= j < |s| ==> !IsRangeSep(s[j]) && s[j] != ',' && s[j] != '\n'
  {
    forall j | 0 <= j < |s|
      ensures !IsRangeSep(s[j]) && s[j] != ',' && s[j] != '\n'
    {
      assert IsDigit(s[j]);
    }
  }

  lemma {:induction false} FirstSepAfterDigits(a: string, c: char, b: string)
    requires forall j :: 0 <= j < |a| ==> !IsRangeSep(a[j])
    requires IsRangeSep(c)
    ensures FirstSep(a + [c] + b) == |a|
    decreases |a|
  {
    if a != [] {
      assert (a + [c] + b)[1..] == a[1..] + [c] + b;
      FirstSepAfterDigits(a[1..], c, b);
    }
  }

  lemma FirstSepOfDigits(a: string)
    requires forall j :: 0 <= j < |a| ==> !IsRangeSep(a[j])
    ensures FirstSep(a) == |a|
  {
  }

  lemma LonePortParses(port: nat)
    ensures ValidItem(NatToString(port)) && !IsRangeItem(NatToString(port))
    ensures ',' !in NatToString(port)
  {
    var p := NatToString(port);
    DigitsOnlyAreNotSeps(p);
    FirstSepOfDigits(p);
  }

  lemma RangeTextParses(lo: nat, hi: nat)
    ensures var t := NatToString(lo) + ":" + NatToString(hi);
      && IsRangeItem(t) && FirstSep(t) == |NatToString(lo)|
      && t[..FirstSep(t)] == NatToString(lo) && t[FirstSep(t) + 1..] == NatToString(hi)
  {
    DigitsRangeParses(NatToString(lo), NatToString(hi));
  }

  /** Two digit strings joined by ':' form a range piece cut at the ':'. */
  lemma DigitsRangeParses(a: string, b: string)
    requires Digits1(a) && Digits1(b)
    ensures var t := a + ":" + b;
      && IsRangeItem(t) && FirstSep(t) == |a| && t[..FirstSep(t)] == a && t[FirstSep(t) + 1..] == b
  {
    var t := a + ":" + b;
    DigitsOnlyAreNotSeps(a);
    assert t == a + [':'] + b;
    FirstSepAfterDigits(a, ':', b);
    assert t[..|a|] == a && t[|a| + 1..] == b;
  }

  lemma RangeTextShape(lo: nat, hi: nat)
    ensures var t := NatToString(lo) + ":" + NatToString(hi);
      ',' !in t && t[|t| - 1] != '\n'
  {
    DigitsRangeShape(NatToString(lo), NatToString(hi));
  }

  /** Two digit strings joined by ':' hold no comma and end in a digit. */
  lemma DigitsRangeShape(a: string, b: string)
    requires Digits1(a) && Digits1(b)
    ensures var t := a + ":" + b;
      ',' !in t && t[|t| - 1] != '\n'
  {
    var t := a + ":" + b;
    DigitsOnlyAreNotSeps(a);
    DigitsOnlyAreNotSeps(b);
    assert t[|t| - 1] == b[|b| - 1];
    forall j | 0 <= j < |t|
      ensures t[j] != ','
    {
      if j < |a| {
        assert t[j] == a[j];
      } else if j > |a| {
        assert t[j] == b[j - |a| - 1];
      }
    }
  }

  /** A canonical entry's text is a valid piece that parses back to it. */
  lemma RenderItemParses(item: PortItem)
    requires Canonical(item)
    ensures ValidItem(RenderItem(item)) && ParseItem(RenderItem(item)) == Ok(item)
    ensures ',' !in RenderItem(item)
    ensures RenderItem(item) != [] && RenderItem(item)[|RenderItem(item)| - 1] != '\n'
  {
    match item
    case LonePort(port) =>
      LonePortRoundTrip(port);
    case PortRangeText(t) =>
      var lo: nat, hi: nat :| lo <= hi <= MAX_PORT && t == NatToString(lo) + ":" + NatToString(hi);
      RangeRoundTrip(lo, hi);
  }

  lemma LonePortRoundTrip(port: nat)
    requires port <= MAX_PORT
    ensures ValidItem(NatToString(port)) && ParseItem(NatToString(port)) == Ok(LonePort(port))
    ensures ',' !in NatToString(port) && NatToString(port)[|NatToString(port)| - 1] != '\n'
  {
    LonePortParses(port);
    var p := NatToString(port);
    DigitsOnlyAreNotSeps(p);
    assert p[|p| - 1] != '\n';
    assert DigitsValue(p) == port;
  }

  lemma RangeRoundTrip(lo: nat, hi: nat)
    requires lo <= hi <= MAX_PORT
    ensures var t := NatToString(lo) + ":" + NatToString(hi);
      ValidItem(t) && ParseItem(t) == Ok(PortRangeText(t)) && ',' !in t && t != [] && t[|t| - 1] != '\n'
  {
    var t := NatToString(lo) + ":" + NatToString(hi);
    RangeTextParses(lo, hi);
    RangeTextShape(lo, hi);
    var i := FirstSep(t);
    assert DigitsValue(t[..i]) == lo;
    assert DigitsValue(t[i + 1..]) == hi;
  }

  /** The canonical form is a fixed point: a non-empty list of canonical
      entries, written back out, parses to the same list. */
  lemma CanonicalRoundTrip(items: seq<PortItem>)
    requires items != [] && forall k :: 0 <= k < |items| ==> Canonical(items[k])
    ensures PortsParse(Some(Join(RenderItems(items), ","))) == Ok(Some(items))
  {
    RenderedPartsParse(items);
    JoinedPartsParse(RenderItems(items), items);
  }

  /** A piece that is valid, parses to `item` and holds no comma. */
  predicate PartParsesTo(part: string, item: PortItem)
  {
    ValidItem(part) && ParseItem(part) == Ok(item) && ',' !in part
  }

  lemma RenderedPartsParse(items: seq<PortItem>)
    requires forall k :: 0 <= k < |items| ==> Canonical(items[k])
    ensures forall k :: 0 <= k < |items| ==> PartParsesTo(RenderItems(items)[k], items[k])
    ensures forall k :: 0 <= k < |items| ==> RenderItems(items)[k] != [] && RenderItems(items)[k][|RenderItems(items)[k]| - 1] != '\n'
  {
    var parts := RenderItems(items);
    forall k | 0 <= k < |items|
      ensures PartParsesTo(parts[k], items[k])
      ensures parts[k] != [] && parts[k][|parts[k]| - 1] != '\n'
    {
      RenderItemParses(items[k]);
    }
  }

  lemma JoinedPartsParse(parts: seq<string>, items: seq<PortItem>)
    requires |parts| == |items| && parts != []
    requires forall k :: 0 <= k < |parts| ==> PartParsesTo(parts[k], items[k])
    requires parts[|parts| - 1] != [] && parts[|parts| - 1][|parts[|parts| - 1]| - 1] != '\n'
    ensures PortsParse(Some(Join(parts, ","))) == Ok(Some(items))
  {
    var s := Join(parts, ",");
    var last := parts[|parts| - 1];
    JoinEndsWithLast(parts);
    assert s[|s| - 1] == last[|last| - 1];
    SplitJoin(parts, ',');
    ValidPartsMatch(s, parts);
    ParseItemsAll(parts, items);
  }

  lemma {:induction false} JoinEndsWithLast(parts: seq<string>)
    requires parts != [] && parts[|parts| - 1] != []
    ensures Join(parts, ",") != [] && Join(parts, ",")[|Join(parts, ",")| - 1] == parts[|parts| - 1][|parts[|parts| - 1]| - 1]
    decreases |parts|
  {
    if |parts| > 1 {
      JoinEndsWithLast(parts[1..]);
    }
  }

  lemma {:induction false} ParseItemsAll(parts: seq<string>, items: seq<PortItem>)
    requires |parts| == |items|
    requires forall k :: 0 <= k < |parts| ==> ValidItem(parts[k]) && PartParsesTo(parts[k], items[k])
    ensures ParseItems(parts) == Ok(items)
    decreases |parts|
  {
    if parts != [] {
      var n := |parts| - 1;
      ParseItemsAll(parts[..n], items[..n]);
      assert items[..n] + [items[n]] == items;
    }
  }

  lemma ValidPartsMatch(s: string, parts: seq<string>)
    requires Split(s, ',') == parts && forall k :: 0 <= k < |parts| ==> ValidItem(parts[k])
    ensures MatchesPortList(s)
  {
    forall piece | piece in Split(s, ',')
      ensures ValidItem(piece)
    {
      var k :| 0 <= k < |parts| && parts[k] == piece;
    }
  }

  // ---------------------------------------------------------------------
  // Protocol check.

  /** Ports may only be given with protocol tcp or udp. */
  predicate PortsAllowedWith(protocol: Option<string>, srcPortsGiven: bool, dstPortsGiven: bool)
  {
    !((protocol != Some("tcp") && protocol != Some("udp")) && (srcPortsGiven || dstPortsGiven))
  }

  /** tcp and udp accept any ports, no ports suit any protocol, and any other
      protocol (or none) refuses source or destination ports. */
  lemma PortsRejectedUnlessTcpUdp(protocol: Option<string>, srcPortsGiven: bool, dstPortsGiven: bool)
    ensures protocol == Some("tcp") || protocol == Some("udp") ==> PortsAllowedWith(protocol, srcPortsGiven, dstPortsGiven)
    ensures !srcPortsGiven && !dstPortsGiven ==> PortsAllowedWith(protocol, srcPortsGiven, dstPortsGiven)
    ensures protocol !in {Some("tcp"), Some("udp")} && (srcPortsGiven || dstPortsGiven) ==>
      !PortsAllowedWith(protocol, srcPortsGiven, dstPortsGiven)
  {
  }

  // ---------------------------------------------------------------------
  // Rule list edits.

  /** Python's `list.insert(i, x)` offset: negative offsets count from the
      end, and offsets are clamped to the list. */
  function PyInsertOffset(len: nat, i: int): (r: nat)
    ensures r <= len
    ensures 0 <= i <= len ==> r == i
  {
    if i < 0 then (if i + len < 0 then 0 else i + len) else if i > len then len else i
  }

  function PyInsert<R>(rs: seq<R>, i: int, x: R): (r: seq<R>)
    ensures |r| == |rs| + 1
  {
    var p := PyInsertOffset(|rs|, i);
    rs[..p] + [x] + rs[p..]
  }

  /** Why an edit leaves the list alone. */
  datatype EditError = PositionOutOfRange | RuleNotFound

  /** The add branch as written: an out-of-range position is reported but
      the rule is still inserted, at the offset `list.insert` makes of it. */
  function AddedAsWritten<R(==)>(rs: seq<R>, rule: R, position: Option<int>): (r: seq<R>)
    ensures rule in r
    ensures rule in rs ==> r == rs
  {
    var pos := position.GetOr(|rs| + 1);
    if rule in rs then rs
    else
      var r := PyInsert(rs, pos - 1, rule);
      assert r[PyInsertOffset(|rs|, pos - 1)] == rule;
      r
  }

  /** With position 0 on [A, B], the warning is printed and C still lands
      between A and B, as `insert(-1, C)` puts it before the last rule. */
  lemma AddOutOfRangeStillInserts()
    ensures AddedAsWritten(["A", "B"], "C", Some(0)) == ["A", "C", "B"]
  {
    assert PyInsertOffset(2, -1) == 1;
    assert ["A", "B"][..1] == ["A"] && ["A", "B"][1..] == ["B"];
  }

  /** The add branch as intended: an out-of-range position exits. */
  function Added<R(==)>(rs: seq<R>, rule: R, position: Option<int>): Result<seq<R>, EditError>
  {
    var pos := position.GetOr(|rs| + 1);
    if !(0 < pos <= |rs| + 1) then Err(PositionOutOfRange)
    else if rule in rs then Ok(rs)
    else Ok(rs[..pos - 1] + [rule] + rs[pos - 1..])
  }

  /** The remove branch: an in-range 1-based position pops that rule (an
      out-of-range one is reported and changes nothing); without a
      position the first equal rule is removed, and a missing rule exits. */
  function Removed<R(==)>(rs: seq<R>, rule: R, position: Option<int>): Result<seq<R>, EditError>
  {
    if position.Some? then
      var p := position.value;
      if 0 < p <= |rs| then Ok(rs[..p - 1] + rs[p..]) else Ok(rs)
    else if rule in rs then
      var k := FirstIndexOf(rs, rule);
      Ok(rs[..k] + rs[k + 1..])
    else Err(RuleNotFound)
  }

  function FirstIndexOf<R(==)>(rs: seq<R>, x: R): (k: nat)
    requires x in rs
    ensures k < |rs| && rs[k] == x && x !in rs[..k]
  {
    if rs[0] == x then 0 else 1 + FirstIndexOf(rs[1..], x)
  }

  /** Adding: None appends, a present rule leaves the list as it is, and
      otherwise the rule lands at the 1-based position with the other rules
      in their old order. */
  lemma AddMeaning<R>(rs: seq<R>, rule: R, position: Option<int>)
    ensures Added(rs, rule, position).Err? <==> position.Some? && !(0 < position.value <= |rs| + 1)
    ensures position.None? && rule !in rs ==> Added(rs, rule, position) == Ok(rs + [rule])
    ensures Added(rs, rule, position).Ok? && rule in rs ==> Added(rs, rule, position) == Ok(rs)
    ensures Added(rs, rule, position).Ok? && rule !in rs ==>
      var r := Added(rs, rule, position).value;
      var p := position.GetOr(|rs| + 1) - 1;
      0 <= p < |r| && r[p] == rule && r[..p] + r[p + 1..] == rs
  {
    if position.None? {
      assert rs[..|rs|] + [rule] + rs[|rs|..] == rs + [rule];
    }
    if Added(rs, rule, position).Ok? && rule !in rs {
      var r := Added(rs, rule, position).value;
      var p := position.GetOr(|rs| + 1) - 1;
      assert r[..p] == rs[..p] && r[p + 1..] == rs[p..];
      assert rs[..p] + rs[p..] == rs;
    }
  }

  /** In range, the intended add agrees with the one as written. */
  lemma AddAgreesInRange<R>(rs: seq<R>, rule: R, position: Option<int>)
    requires position.None? || 0 < position.value <= |rs| + 1
    ensures Added(rs, rule, position) == Ok(AddedAsWritten(rs, rule, position))
  {
  }

  /** Removing the rule just added, by value or by the position it was
      added at, restores the list. */
  lemma AddThenRemove<R>(rs: seq<R>, rule: R, position: Option<int>)
    requires rule !in rs && Added(rs, rule, position).Ok?
    ensures Removed(Added(rs, rule, position).value, rule, None) == Ok(rs)
    ensures Removed(Added(rs, rule, position).value, rule, Some(position.GetOr(|rs| + 1))) == Ok(rs)
  {
    AddMeaning(rs, rule, position);
    var r := Added(rs, rule, position).value;
    var p := position.GetOr(|rs| + 1) - 1;
    assert r[..p] == rs[..p];
    assert rule !in r[..p];
    FirstIndexUnique(r, rule, p);
    assert r[..p + 1 - 1] + r[p + 1..] == rs;
  }

  lemma FirstIndexUnique<R>(rs: seq<R>, x: R, p: nat)
    requires p < |rs| && rs[p] == x && x !in rs[..p]
    ensures FirstIndexOf(rs, x) == p
  {
  }

  /** Removing by position takes out exactly the rule at that position;
      removing a missing rule by value fails. */
  lemma RemoveMeaning<R>(rs: seq<R>, rule: R, position: Option<int>)
    ensures position.Some? && 0 < position.value <= |rs| ==>
      Removed(rs, rule, position).Ok? && |Removed(rs, rule, position).value| == |rs| - 1 &&
      multiset(Removed(rs, rule, position).value) + multiset{rs[position.value - 1]} == multiset(rs)
    ensures position.None? ==> (Removed(rs, rule, position).Err? <==> rule !in rs)
    ensures position.None? && rule in rs ==>
      multiset(Removed(rs, rule, position).value) + multiset{rule} == multiset(rs)
  {
    if position.Some? && 0 < position.value <= |rs| {
      RemoveAtMeaning(rs, rule, position.value);
    }
    if position.None? && rule in rs {
      RemoveValueMeaning(rs, rule);
    }
  }

  lemma RemoveAtMeaning<R>(rs: seq<R>, rule: R, p: int)
    requires 0 < p <= |rs|
    ensures Removed(rs, rule, Some(p)).Ok? && |Removed(rs, rule, Some(p)).value| == |rs| - 1
    ensures multiset(Removed(rs, rule, Some(p)).value) + multiset{rs[p - 1]} == multiset(rs)
  {
    assert rs == rs[..p - 1] + [rs[p - 1]] + rs[p..];
  }

  lemma RemoveValueMeaning<R>(rs: seq<R>, rule: R)
    requires rule in rs
    ensures Removed(rs, rule, None).Ok?
    ensures multiset(Removed(rs, rule, None).value) + multiset{rule} == multiset(rs)
  {
    var k := FirstIndexOf(rs, rule);
    assert rs == rs[..k] + [rs[k]] + rs[k + 1..];
  }

  /** A profile's inbound or outbound rule list, edited in place. */
  class RuleList<R(==)> {
    var rules: seq<R>

    constructor (rs: seq<R>)
      ensures rules == rs
    {
      rules := rs;
    }

    /** The add branch of `profile_rule_add_remove` as written; `warned`
        is the out-of-range message. */
    method AddAsWritten(rule: R, position: Option<int>) returns (warned: bool)
      modifies this
      ensures warned <==> position.Some? && !(0 < position.value <= |old(rules)| + 1)
      ensures rules == AddedAsWritten(old(rules), rule, position)
    {
      var pos := position.GetOr(|rules| + 1);
      warned := !(0 < pos <= |rules| + 1);
      if rule in rules {
        return;
      }
      rules := PyInsert(rules, pos - 1, rule);
    }

    /** The add branch with an out-of-range position exiting. */
    method Add(rule: R, position: Option<int>) returns (r: Result<(), EditError>)
      modifies this
      ensures r.Err? <==> Added(old(rules), rule, position).Err?
      ensures r.Ok? ==> rules == Added(old(rules), rule, position).value
      ensures r.Err? ==> rules == old(rules)
    {
      var pos := position.GetOr(|rules| + 1);
      if !(0 < pos <= |rules| + 1) {
        return Err(PositionOutOfRange);
      }
      if rule in rules {
        return Ok(());
      }
      rules := PyInsert(rules, pos - 1, rule);
      r := Ok(());
    }

    /** The remove branch; `warned` is the out-of-range message. */
    method Remove(rule: R, position: Option<int>) returns (r: Result<(), EditError>, warned: bool)
      modifies this
      ensures r.Err? <==> Removed(old(rules), rule, position).Err?
      ensures r.Ok? ==> rules == Removed(old(rules), rule, position).value
      ensures r.Err? ==> rules == old(rules)
      ensures warned <==> position.Some? && !(0 < position.value <= |old(rules)|)
    {
      warned := false;
      if position.Some? {
        var p := position.value;
        if 0 < p <= |rules| {
          rules := rules[..p - 1] + rules[p..];
        } else {
          warned := true;
        }
        return Ok(()), warned;
      }
      if rule !in rules {
        return Err(RuleNotFound), warned;
      }
      var k := FirstIndexOf(rules, rule);
      rules := rules[..k] + rules[k + 1..];
      r := Ok(());
    }
  }
}
