// Translation of a Kubernetes NetworkPolicy's ingress clauses into Calico
// allow rules.

module PolicyParser {
  import opened Wrappers
  import opened StrUtil

  const K8S_NAMESPACE_LABEL := "calico/k8s_ns"
  const NS_LABEL_KEY_PREFIX := "k8s_ns/label/"

  /** A port value of a NetworkPolicy port entry: a number or a name. */
  datatype PortValue = PortInt(n: int) | PortName(name: string)

  /** Python truthiness of a port value: 0 and "" are falsy. */
  predicate PortTruthy(p: Option<PortValue>)
  {
    match p
    case None => false
    case Some(PortInt(n)) => n != 0
    case Some(PortName(s)) => s != ""
  }

  datatype ToPort = ToPort(protocol: Option<string>, port: Option<PortValue>)

  /** A "pods" or "namespaces" key of a from clause: absent, or present with
      a label map (None when the value is null), in iteration order. */
  datatype Presence = Absent | Present(labels: Option<seq<(string, string)>>)

  datatype FromClause = FromClause(pods: Presence, namespaces: Presence)

  datatype IngressClause = IngressClause(ports: Option<seq<ToPort>>, froms: Option<seq<FromClause>>)

  /** The `to` arguments of a rule; `None` fields are absent keys. */
  datatype ToArg = ToArg(protocol: Option<string>, dstPorts: Option<seq<PortValue>>)

  /** A Calico rule built from the keyword arguments "action", "src_selector",
      "protocol" and "dst_ports". */
  datatype PolicyRule = PolicyRule(action: string, srcSelector: Option<string>,
                                   protocol: Option<string>, dstPorts: Option<seq<PortValue>>)

  /** `PolicyError` for a from clause with both selectors, and the
      `AttributeError` of lower-casing a missing protocol. */
  datatype PolicyFailure = BothPodsAndNamespaces | MissingProtocol

  const ALLOW_ALL := PolicyRule("allow", None, None, None)

  // ---------------------------------------------------------------------
  // Selectors.

  /** `"%s == '%s'" % (k, v)`. */
  function Term(k: string, v: string): string
  {
    k + " == '" + v + "'"
  }

  function PodTerms(labels: seq<(string, string)>): (r: seq<string>)
    ensures |r| == |labels|
  {
    if labels == [] then [] else [Term(labels[0].0, labels[0].1)] + PodTerms(labels[1..])
  }

  function NamespaceTerms(labels: seq<(string, string)>): (r: seq<string>)
    ensures |r| == |labels|
  {
    if labels == [] then [] else [Term(NS_LABEL_KEY_PREFIX + labels[0].0, labels[0].1)] + NamespaceTerms(labels[1..])
  }

  function PodSelector(namespace: string, labels: seq<(string, string)>): string
  {
    Join(PodTerms(labels) + [Term(K8S_NAMESPACE_LABEL, namespace)], " && ")
  }

  function HasNamespaceSelector(): string
  {
    "has(" + K8S_NAMESPACE_LABEL + ")"
  }

  function NamespaceSelector(labels: seq<(string, string)>): string
  {
    var s := Join(NamespaceTerms(labels), " && ");
    if s != "" then s else HasNamespaceSelector()
  }

  lemma {:induction false} JoinSnoc(parts: seq<string>, x: string, sep: string)
    ensures Join(parts + [x], sep) == if parts == [] then x else Join(parts, sep) + sep + x
    decreases |parts|
  {
    if |parts| > 1 {
      assert (parts + [x])[1..] == parts[1..] + [x];
      JoinSnoc(parts[1..], x, sep);
    } else if |parts| == 1 {
      assert (parts + [x])[1..] == [x];
    }
  }

  lemma JoinHead(parts: seq<string>, sep: string)
    requires parts != [] && parts[0] != ""
    ensures Join(parts, sep) != "" && Join(parts, sep)[0] == parts[0][0]
  {
  }

  /** A pods selector is the conjunction of one `k == 'v'` term per label,
      always closed by the term pinning the policy's own namespace. */
  lemma PodSelectorShape(namespace: string, labels: seq<(string, string)>)
    ensures EndsWith(PodSelector(namespace, labels), Term(K8S_NAMESPACE_LABEL, namespace))
    ensures labels == [] ==> PodSelector(namespace, labels) == Term(K8S_NAMESPACE_LABEL, namespace)
    ensures labels != [] ==>
      PodSelector(namespace, labels) == Join(PodTerms(labels), " && ") + " && " + Term(K8S_NAMESPACE_LABEL, namespace)
  {
    JoinSnoc(PodTerms(labels), Term(K8S_NAMESPACE_LABEL, namespace), " && ");
    var s := PodSelector(namespace, labels);
    var t := Term(K8S_NAMESPACE_LABEL, namespace);
    assert s[|s| - |t|..] == t;
  }

  /** An empty namespaces selector selects every pod carrying a namespace;
      otherwise each label key is moved into the namespace-label space. */
  lemma NamespaceSelectorShape(labels: seq<(string, string)>)
    ensures labels == [] ==> NamespaceSelector(labels) == HasNamespaceSelector()
    ensures labels != [] ==> NamespaceSelector(labels) == Join(NamespaceTerms(labels), " && ")
    ensures labels != [] ==> NamespaceSelector(labels) != HasNamespaceSelector()
  {
    if labels != [] {
      var terms := NamespaceTerms(labels);
      assert terms[0][0] == 'k';
      JoinHead(terms, " && ");
      assert HasNamespaceSelector()[0] == 'h';
    }
  }

  // ---------------------------------------------------------------------
  // From arguments.

  /** The `src_selector` (if any) one from clause contributes. */
  function FromArgFor(namespace: string, clause: FromClause): Result<Option<string>, PolicyFailure>
  {
    if clause.pods.Present? && clause.namespaces.Present? then Err(BothPodsAndNamespaces)
    else if clause.pods.Present? then Ok(Some(PodSelector(namespace, clause.pods.labels.GetOr([]))))
    else if clause.namespaces.Present? then Ok(Some(NamespaceSelector(clause.namespaces.labels.GetOr([]))))
    else Ok(None)
  }

  /** The list of `src_selector` values built from the from clauses, in order;
      a clause with neither key adds nothing. */
  function FromArgs(namespace: string, froms: seq<FromClause>): Result<seq<string>, PolicyFailure>
  {
    if froms == [] then Ok([])
    else
      match FromArgs(namespace, froms[..|froms| - 1])
      case Err(e) => Err(e)
      case Ok(prefix) =>
        match FromArgFor(namespace, froms[|froms| - 1])
        case Err(e) => Err(e)
        case Ok(a) => Ok(prefix + (if a.Some? then [a.value] else []))
  }

  /** A from clause with both selectors makes the whole list fail; with no
      such clause, the list has one selector per clause that has a key. */
  lemma {:induction false} FromArgsFailure(namespace: string, froms: seq<FromClause>)
    ensures FromArgs(namespace, froms).Err? <==>
      exists k :: 0 <= k < |froms| && froms[k].pods.Present? && froms[k].namespaces.Present?
  {
    if froms != [] {
      var init := froms[..|froms| - 1];
      FromArgsFailure(namespace, init);
      if exists k :: 0 <= k < |init| && init[k].pods.Present? && init[k].namespaces.Present? {
        var k :| 0 <= k < |init| && init[k].pods.Present? && init[k].namespaces.Present?;
        assert froms[k] == init[k];
      }
      if exists k :: 0 <= k < |froms| && froms[k].pods.Present? && froms[k].namespaces.Present? {
        var k :| 0 <= k < |froms| && froms[k].pods.Present? && froms[k].namespaces.Present?;
        if k < |init| {
          assert init[k] == froms[k];
        }
      }
    }
  }

  /** `_generate_from_args`. */
  method GenerateFromArgs(namespace: string, froms: seq<FromClause>) returns (r: Result<seq<string>, PolicyFailure>)
    ensures r == FromArgs(namespace, froms)
  {
    var fromArgs: seq<string> := [];
    var k := 0;
    while k < |froms|
      invariant 0 <= k <= |froms|
      invariant FromArgs(namespace, froms[..k]) == Ok(fromArgs)
    {
      var clause := froms[k];
      ghost var prefix := fromArgs;
      var podsPresent := clause.pods.Present?;
      var namespacesPresent := clause.namespaces.Present?;
      if podsPresent && namespacesPresent {
        assert froms[..k + 1] == froms[..k] + [clause];
        FromArgsPrefixFails(namespace, froms, k + 1);
        return Err(BothPodsAndNamespaces);
      } else if podsPresent {
        var podLabels := clause.pods.labels.GetOr([]);
        FromArgsStep(namespace, froms, k, prefix, Some(PodSelector(namespace, podLabels)));
        fromArgs := fromArgs + [PodSelector(namespace, podLabels)];
      } else if namespacesPresent {
        var nsLabels := clause.namespaces.labels.GetOr([]);
        FromArgsStep(namespace, froms, k, prefix, Some(NamespaceSelector(nsLabels)));
        fromArgs := fromArgs + [NamespaceSelector(nsLabels)];
      } else {
        FromArgsStep(namespace, froms, k, prefix, None);
        assert prefix + [] == prefix;
      }
      k := k + 1;
    }
    assert froms[..k] == froms;
    r := Ok(fromArgs);
  }

  lemma FromArgsStep(namespace: string, froms: seq<FromClause>, k: nat, prefix: seq<string>, a: Option<string>)
    requires k < |froms| && FromArgs(namespace, froms[..k]) == Ok(prefix) && FromArgFor(namespace, froms[k]) == Ok(a)
    ensures FromArgs(namespace, froms[..k + 1]) == Ok(prefix + (if a.Some? then [a.value] else []))
  {
    assert froms[..k + 1][..k] == froms[..k];
    assert froms[..k + 1][k] == froms[k];
  }

  /** Once a prefix of the from clauses fails, the whole list fails. */
  lemma {:induction false} FromArgsPrefixFails(namespace: string, froms: seq<FromClause>, n: nat)
    requires n <= |froms| && FromArgs(namespace, froms[..n]).Err?
    ensures FromArgs(namespace, froms) == FromArgs(namespace, froms[..n])
    decreases |froms| - n
  {
    if n < |froms| {
      assert froms[..n + 1][..n] == froms[..n];
      FromArgsPrefixFails(namespace, froms, n + 1);
    } else {
      assert froms[..n] == froms;
    }
  }

  // ---------------------------------------------------------------------
  // To arguments.

  /** The protocols of the port entries, each once, in first-appearance order. */
  function ProtocolsInOrder(ports: seq<ToPort>): (r: seq<Option<string>>)
  {
    if ports == [] then []
    else
      var p := ProtocolsInOrder(ports[..|ports| - 1]);
      if ports[|ports| - 1].protocol in p then p else p + [ports[|ports| - 1].protocol]
  }

  /** The truthy port values given with protocol `proto`, in order. */
  function PortsOf(ports: seq<ToPort>, proto: Option<string>): seq<PortValue>
  {
    if ports == [] then []
    else
      var last := ports[|ports| - 1];
      PortsOf(ports[..|ports| - 1], proto) +
        (if last.protocol == proto && PortTruthy(last.port) then [last.port.value] else [])
  }

  function ToArgFor(ports: seq<ToPort>, proto: string): ToArg
  {
    var ps := PortsOf(ports, Some(proto));
    ToArg(Some(Lower(proto)), if ps == [] then None else Some(ps))
  }

  function ArgsFor(ports: seq<ToPort>, protos: seq<Option<string>>): (r: seq<ToArg>)
    requires None !in protos
    ensures |r| == |protos|
    ensures forall j :: 0 <= j < |protos| ==> r[j] == ToArgFor(ports, protos[j].value)
  {
    if protos == [] then []
    else ArgsFor(ports, protos[..|protos| - 1]) + [ToArgFor(ports, protos[|protos| - 1].value)]
  }

  /** The iteration order of a Python 2 dict: from its keys in insertion
      order, the order in which the interpreter visits them. */
  type KeyOrder = seq<Option<string>> -> seq<Option<string>>

  predicate Distinct<T(==)>(xs: seq<T>)
  {
    forall i, j :: 0 <= i < j < |xs| ==> xs[i] != xs[j]
  }

  /** A dict visits each of its keys exactly once, whatever the order. */
  ghost predicate ValidKeyOrder(order: KeyOrder)
  {
    forall ks: seq<Option<string>> {:trigger order(ks)} :: Distinct(ks) ==>
      Distinct(order(ks)) && forall p :: p in order(ks) <==> p in ks
  }

  /** `_generate_to_args`: one argument per protocol, in the dict's
      iteration order; a missing protocol fails when it is lower-cased. */
  function ToArgs(ports: seq<ToPort>, order: KeyOrder): Result<seq<ToArg>, PolicyFailure>
  {
    var protos := order(ProtocolsInOrder(ports));
    if None in protos then Err(MissingProtocol) else Ok(ArgsFor(ports, protos))
  }

  /** Every protocol of the input appears exactly once in the grouping. */
  lemma {:induction false} ProtocolsInOrderExact(ports: seq<ToPort>)
    ensures forall p :: p in ProtocolsInOrder(ports) <==> exists k :: 0 <= k < |ports| && ports[k].protocol == p
    ensures forall i, j :: 0 <= i < j < |ProtocolsInOrder(ports)| ==> ProtocolsInOrder(ports)[i] != ProtocolsInOrder(ports)[j]
  {
    if ports != [] {
      var init := ports[..|ports| - 1];
      ProtocolsInOrderExact(init);
      forall p ensures p in ProtocolsInOrder(ports) <==> exists k :: 0 <= k < |ports| && ports[k].protocol == p {
        if exists k :: 0 <= k < |ports| && ports[k].protocol == p {
          var k :| 0 <= k < |ports| && ports[k].protocol == p;
          if k < |init| {
            assert init[k] == ports[k];
          }
        }
        if p in ProtocolsInOrder(init) {
          var k :| 0 <= k < |init| && init[k].protocol == p;
          assert ports[k] == init[k];
        }
      }
    }
  }

  /** A port value is listed under a protocol exactly when some entry of
      that protocol carries it and it is truthy. */
  lemma {:induction false} PortsOfExact(ports: seq<ToPort>, proto: Option<string>, x: PortValue)
    ensures x in PortsOf(ports, proto) <==>
      exists k :: 0 <= k < |ports| && ports[k].protocol == proto && PortTruthy(ports[k].port) && ports[k].port == Some(x)
  {
    if ports != [] {
      var init := ports[..|ports| - 1];
      PortsOfExact(init, proto, x);
      if exists k :: 0 <= k < |init| && init[k].protocol == proto && PortTruthy(init[k].port) && init[k].port == Some(x) {
        var k :| 0 <= k < |init| && init[k].protocol == proto && PortTruthy(init[k].port) && init[k].port == Some(x);
        assert ports[k] == init[k];
      }
      if exists k :: 0 <= k < |ports| && ports[k].protocol == proto && PortTruthy(ports[k].port) && ports[k].port == Some(x) {
        var k :| 0 <= k < |ports| && ports[k].protocol == proto && PortTruthy(ports[k].port) && ports[k].port == Some(x);
        if k < |init| {
          assert init[k] == ports[k];
        }
      }
    }
  }

  /** The to arguments fail exactly when some entry has no protocol;
      otherwise every truthy port sits, lower-cased by protocol, in the
      argument of its protocol, and `dst_ports` is set only when non-empty. */
  lemma ToArgsMeaning(ports: seq<ToPort>, order: KeyOrder)
    requires ValidKeyOrder(order)
    ensures ToArgs(ports, order).Err? <==> exists k :: 0 <= k < |ports| && ports[k].protocol.None?
    ensures ToArgs(ports, order).Ok? ==> |ToArgs(ports, order).value| == |ProtocolsInOrder(ports)|
    ensures ToArgs(ports, order).Ok? ==> forall k :: 0 <= k < |ports| && PortTruthy(ports[k].port) ==>
      exists j :: 0 <= j < |ToArgs(ports, order).value| &&
        ToArgs(ports, order).value[j].protocol == Some(Lower(ports[k].protocol.value)) &&
        ToArgs(ports, order).value[j].dstPorts.Some? && ports[k].port.value in ToArgs(ports, order).value[j].dstPorts.value
    ensures ToArgs(ports, order).Ok? ==> forall j :: 0 <= j < |ToArgs(ports, order).value| ==>
      ToArgs(ports, order).value[j].dstPorts != Some([])
  {
    ProtocolsInOrderExact(ports);
    var keys := ProtocolsInOrder(ports);
    var protos := order(keys);
    IterationVisitsKeys(order, keys);
    if None in protos {
      var k :| 0 <= k < |ports| && ports[k].protocol == None;
    } else {
      assert forall k :: 0 <= k < |ports| ==> ports[k].protocol.Some? by {
        forall k | 0 <= k < |ports|
          ensures ports[k].protocol.Some?
        {
          assert ports[k].protocol in keys;
        }
      }
      DistinctSameLength(keys, protos);
      var args := ToArgs(ports, order).value;
      forall k | 0 <= k < |ports| && PortTruthy(ports[k].port)
        ensures exists j :: (0 <= j < |args| &&
          args[j].protocol == Some(Lower(ports[k].protocol.value)) &&
          args[j].dstPorts.Some? && ports[k].port.value in args[j].dstPorts.value)
      {
        var p := ports[k].protocol;
        assert p in keys;
        var j :| 0 <= j < |protos| && protos[j] == p;
        PortsOfExact(ports, p, ports[k].port.value);
        assert args[j] == ToArgFor(ports, p.value);
      }
    }
  }

  /** The converse of ToArgsMeaning: the arguments are one per protocol key
      of the input, each key once, in the dict's iteration order `keys`;
      argument `j` carries key `j` lower-cased (so "TCP" and "tcp" are two
      keys and give two arguments with the same protocol, as in the dict). */
  lemma ToArgsKeys(ports: seq<ToPort>, order: KeyOrder)
    requires ValidKeyOrder(order) && ToArgs(ports, order).Ok?
    ensures var args := ToArgs(ports, order).value;
      var keys := order(ProtocolsInOrder(ports));
      && |keys| == |args| && Distinct(keys)
      && (forall p :: p in keys <==> exists k :: 0 <= k < |ports| && ports[k].protocol == p)
      && forall j :: 0 <= j < |args| ==> keys[j].Some? && args[j].protocol == Some(Lower(keys[j].value))
  {
    ProtocolsInOrderExact(ports);
    IterationVisitsKeys(order, ProtocolsInOrder(ports));
  }

  /** The ports of argument `j` are exactly the truthy ports given with its
      protocol key: none stray in, none is lost. */
  lemma ToArgPortsExact(ports: seq<ToPort>, order: KeyOrder, j: nat, x: PortValue)
    requires ValidKeyOrder(order) && ToArgs(ports, order).Ok?
    requires j < |ToArgs(ports, order).value|
    ensures var arg := ToArgs(ports, order).value[j];
      var key := order(ProtocolsInOrder(ports))[j];
      (arg.dstPorts.Some? && x in arg.dstPorts.value) <==>
        exists k :: 0 <= k < |ports| && ports[k].protocol == key && PortTruthy(ports[k].port) && ports[k].port == Some(x)
  {
    var keys := order(ProtocolsInOrder(ports));
    ToArgsKeys(ports, order);
    assert ToArgs(ports, order).value[j] == ToArgFor(ports, keys[j].value);
    PortsOfExact(ports, keys[j], x);
  }

  /** The first loop of `_generate_to_args`: `ports_by_protocol` built with
      `setdefault`; `protos` is the order in which its keys were inserted. */
  method GroupPorts(ports: seq<ToPort>) returns (protos: seq<Option<string>>, portsByProtocol: map<Option<string>, seq<PortValue>>)
    ensures protos == ProtocolsInOrder(ports)
    ensures forall p :: p in portsByProtocol <==> p in protos
    ensures forall p :: p in portsByProtocol ==> portsByProtocol[p] == PortsOf(ports, p)
  {
    protos := [];
    portsByProtocol := map[];
    var k := 0;
    while k < |ports|
      invariant 0 <= k <= |ports|
      invariant protos == ProtocolsInOrder(ports[..k])
      invariant forall p :: p in portsByProtocol <==> p in protos
      invariant forall p :: p in portsByProtocol ==> portsByProtocol[p] == PortsOf(ports[..k], p)
    {
      assert ports[..k + 1][..k] == ports[..k];
      var protocol := ports[k].protocol;
      var port := ports[k].port;
      if protocol !in portsByProtocol {
        PortsOfAbsent(ports[..k], protocol);
        protos := protos + [protocol];
        portsByProtocol := portsByProtocol[protocol := []];
      }
      if PortTruthy(port) {
        portsByProtocol := portsByProtocol[protocol := portsByProtocol[protocol] + [port.value]];
      }
      k := k + 1;
    }
    assert ports[..k] == ports;
  }

  /** `_generate_to_args`: the grouping, then one argument per protocol in
      the dict's iteration order. */
  method GenerateToArgs(ports: seq<ToPort>, order: KeyOrder) returns (r: Result<seq<ToArg>, PolicyFailure>)
    requires ValidKeyOrder(order)
    ensures r == ToArgs(ports, order)
  {
    var keys, portsByProtocol := GroupPorts(ports);
    ProtocolsInOrderExact(ports);
    IterationVisitsKeys(order, keys);
    var protos := order(keys);
    var toArgs: seq<ToArg> := [];
    var j := 0;
    while j < |protos|
      invariant 0 <= j <= |protos|
      invariant None !in protos[..j]
      invariant toArgs == ArgsFor(ports, protos[..j])
    {
      var protocol := protos[j];
      if protocol.None? {
        return Err(MissingProtocol);
      }
      var arg := ToArg(Some(Lower(protocol.value)), None);
      if portsByProtocol[protocol] != [] {
        arg := ToArg(Some(Lower(protocol.value)), Some(portsByProtocol[protocol]));
      }
      toArgs := toArgs + [arg];
      assert protos[..j + 1] == protos[..j] + [protocol];
      assert protos[..j + 1][..j] == protos[..j];
      j := j + 1;
    }
    assert protos[..j] == protos;
    r := Ok(toArgs);
  }

  /** A protocol not yet seen has no ports collected. */
  lemma {:induction false} PortsOfAbsent(ports: seq<ToPort>, proto: Option<string>)
    requires proto !in ProtocolsInOrder(ports)
    ensures PortsOf(ports, proto) == []
  {
    if ports != [] {
      var init := ports[..|ports| - 1];
      assert proto !in ProtocolsInOrder(init);
      PortsOfAbsent(init, proto);
    }
  }

  /** The iteration order of the grouped protocols lists each of them once. */
  lemma IterationVisitsKeys(order: KeyOrder, keys: seq<Option<string>>)
    requires ValidKeyOrder(order) && Distinct(keys)
    ensures Distinct(order(keys)) && forall p :: p in order(keys) <==> p in keys
  {
  }

  /** The dict's iteration order decides only the order of the to
      arguments: under any two orders the generation fails alike, and when
      it succeeds the arguments are the same, each once. */
  lemma ToArgsOrderIrrelevant(ports: seq<ToPort>, o1: KeyOrder, o2: KeyOrder)
    requires ValidKeyOrder(o1) && ValidKeyOrder(o2)
    ensures ToArgs(ports, o1).Ok? <==> ToArgs(ports, o2).Ok?
    ensures ToArgs(ports, o1).Ok? ==>
      |ToArgs(ports, o1).value| == |ToArgs(ports, o2).value| &&
      forall a :: a in ToArgs(ports, o1).value <==> a in ToArgs(ports, o2).value
  {
    ProtocolsInOrderExact(ports);
    var keys := ProtocolsInOrder(ports);
    IterationVisitsKeys(o1, keys);
    IterationVisitsKeys(o2, keys);
    var p1, p2 := o1(keys), o2(keys);
    assert None in p1 <==> None in p2;
    if None !in p1 {
      DistinctSameLength(p1, p2);
      forall a ensures a in ToArgs(ports, o1).value <==> a in ToArgs(ports, o2).value {
        ArgsForMember(ports, p1, a);
        ArgsForMember(ports, p2, a);
      }
    }
  }

  /** An argument is among those built for some protocols exactly when one
      of them builds it. */
  lemma ArgsForMember(ports: seq<ToPort>, protos: seq<Option<string>>, a: ToArg)
    requires None !in protos
    ensures a in ArgsFor(ports, protos) <==> exists p :: p in protos && a == ToArgFor(ports, p.value)
  {
    var r := ArgsFor(ports, protos);
    if a in r {
      var j :| 0 <= j < |r| && r[j] == a;
      assert protos[j] in protos;
    }
    if exists p :: p in protos && a == ToArgFor(ports, p.value) {
      var p :| p in protos && a == ToArgFor(ports, p.value);
      var j :| 0 <= j < |protos| && protos[j] == p;
      assert r[j] == a;
    }
  }

  /** Two duplicate-free sequences with the same members have the same length. */
  lemma DistinctSameLength<T>(xs: seq<T>, ys: seq<T>)
    requires Distinct(xs) && Distinct(ys)
    requires forall x :: x in xs <==> x in ys
    ensures |xs| == |ys|
  {
    DistinctCard(xs);
    DistinctCard(ys);
    assert (set x | x in xs) == (set y | y in ys);
  }

  lemma {:induction false} DistinctCard<T>(xs: seq<T>)
    requires Distinct(xs)
    ensures |set x | x in xs| == |xs|
  {
    if xs != [] {
      var init := xs[..|xs| - 1];
      DistinctCard(init);
      assert (set x | x in xs) == (set x | x in init) + {xs[|xs| - 1]};
      assert xs[|xs| - 1] !in init;
    }
  }

  // ---------------------------------------------------------------------
  // Rules.

  function Combine(to: ToArg, from: Option<string>): PolicyRule
  {
    PolicyRule("allow", from, to.protocol, to.dstPorts)
  }

  function Row(to: ToArg, froms: seq<Option<string>>): (r: seq<PolicyRule>)
    ensures |r| == |froms|
  {
    seq(|froms|, f requires 0 <= f < |froms| => Combine(to, froms[f]))
  }

  /** The rules of one clause: per to argument, per from argument. */
  function Cross(tos: seq<ToArg>, froms: seq<Option<string>>): seq<PolicyRule>
  {
    if tos == [] then [] else Cross(tos[..|tos| - 1], froms) + Row(tos[|tos| - 1], froms)
  }

  lemma MulStep(t: nat, n: nat, m: nat, f: nat)
    requires t < n && f < m
    ensures t * m + f < n * m
  {
    assert t * m + f < t * m + m == (t + 1) * m;
    assert (t + 1) * m <= n * m;
  }

  lemma {:induction false} CrossLength(tos: seq<ToArg>, froms: seq<Option<string>>)
    ensures |Cross(tos, froms)| == |tos| * |froms|
  {
    if tos != [] {
      CrossLength(tos[..|tos| - 1], froms);
      assert (|tos| - 1) * |froms| + |froms| == |tos| * |froms|;
    }
  }

  /** The cross product has |tos| × |froms| rules, the one at t·|froms| + f
      combining the t-th to argument with the f-th from argument. */
  lemma {:induction false} CrossIndex(tos: seq<ToArg>, froms: seq<Option<string>>, t: nat, f: nat)
    requires t < |tos| && f < |froms|
    ensures |Cross(tos, froms)| == |tos| * |froms|
    ensures t * |froms| + f < |Cross(tos, froms)|
    ensures Cross(tos, froms)[t * |froms| + f] == Combine(tos[t], froms[f])
  {
    var n := |tos| - 1;
    var m := |froms|;
    var init := tos[..n];
    CrossLength(tos, froms);
    CrossLength(init, froms);
    MulStep(t, |tos|, m, f);
    if t < n {
      CrossIndex(init, froms, t, f);
      assert tos[t] == init[t];
    } else {
      assert Cross(tos, froms)[t * m + f] == Row(tos[n], froms)[f];
    }
  }

  function FromArgValues(selectors: seq<string>): (r: seq<Option<string>>)
    ensures |r| == |selectors|
  {
    seq(|selectors|, i requires 0 <= i < |selectors| => Some(selectors[i]))
  }

  predicate Given<T>(xs: Option<seq<T>>)
  {
    xs.Some? && xs.value != []
  }

  /** `_allow_incoming_to_rules`; to arguments are built before from arguments. */
  function ClauseRules(namespace: string, clause: IngressClause, order: KeyOrder): Result<seq<PolicyRule>, PolicyFailure>
  {
    var to := if Given(clause.ports) then ToArgs(clause.ports.value, order) else Ok([ToArg(None, None)]);
    if to.Err? then Err(to.error)
    else
      var from := if Given(clause.froms) then FromArgs(namespace, clause.froms.value) else Ok([]);
      if from.Err? then Err(from.error)
      else
        var fromArgs := if Given(clause.froms) then FromArgValues(from.value) else [None];
        Ok(Cross(to.value, fromArgs))
  }

  /** Every rule a clause yields is an allow rule, and there are
      |to args| × |from args| of them. */
  lemma ClauseRulesShape(namespace: string, clause: IngressClause, order: KeyOrder)
    requires ClauseRules(namespace, clause, order).Ok?
    ensures forall k :: 0 <= k < |ClauseRules(namespace, clause, order).value| ==>
      ClauseRules(namespace, clause, order).value[k].action == "allow"
    ensures !Given(clause.ports) && !Given(clause.froms) ==> ClauseRules(namespace, clause, order).value == [ALLOW_ALL]
    ensures Given(clause.ports) && !Given(clause.froms) ==>
      |ClauseRules(namespace, clause, order).value| == |ToArgs(clause.ports.value, order).value|
    ensures !Given(clause.ports) && Given(clause.froms) ==>
      |ClauseRules(namespace, clause, order).value| == |FromArgs(namespace, clause.froms.value).value|
    ensures Given(clause.ports) && Given(clause.froms) ==>
      |ClauseRules(namespace, clause, order).value| ==
        |ToArgs(clause.ports.value, order).value| * |FromArgs(namespace, clause.froms.value).value|
  {
    var to := if Given(clause.ports) then ToArgs(clause.ports.value, order).value else [ToArg(None, None)];
    var from := if Given(clause.froms) then FromArgValues(FromArgs(namespace, clause.froms.value).value) else [None];
    CrossLength(to, from);
    var rules := ClauseRules(namespace, clause, order).value;
    assert rules == Cross(to, from);
    forall k | 0 <= k < |rules|
      ensures rules[k].action == "allow"
    {
      CrossAllAllow(to, from, k);
    }
    if !Given(clause.ports) && !Given(clause.froms) {
      EmptyClauseAllowsAll(namespace, clause, order);
    }
  }

  lemma {:induction false} CrossAllAllow(tos: seq<ToArg>, froms: seq<Option<string>>, k: int)
    requires 0 <= k < |Cross(tos, froms)|
    ensures Cross(tos, froms)[k].action == "allow"
  {
    var init := tos[..|tos| - 1];
    if k < |Cross(init, froms)| {
      CrossAllAllow(init, froms, k);
    }
  }

  /** `_allow_incoming_to_rules`: the to and from arguments, then their
      cross product. */
  method AllowIncomingToRules(namespace: string, clause: IngressClause, order: KeyOrder) returns (r: Result<seq<PolicyRule>, PolicyFailure>)
    requires ValidKeyOrder(order)
    ensures r == ClauseRules(namespace, clause, order)
  {
    var toArgs: seq<ToArg> := [ToArg(None, None)];
    if Given(clause.ports) {
      var to := GenerateToArgs(clause.ports.value, order);
      if to.Err? {
        return Err(to.error);
      }
      toArgs := to.value;
    }
    var fromArgs: seq<Option<string>> := [None];
    if Given(clause.froms) {
      var from := GenerateFromArgs(namespace, clause.froms.value);
      if from.Err? {
        return Err(from.error);
      }
      fromArgs := FromArgValues(from.value);
    }
    var rules := CrossProduct(toArgs, fromArgs);
    r := Ok(rules);
  }

  /** The nested loops of `_allow_incoming_to_rules`: one rule per to
      argument and from argument, to arguments outermost. */
  method CrossProduct(toArgs: seq<ToArg>, fromArgs: seq<Option<string>>) returns (rules: seq<PolicyRule>)
    ensures rules == Cross(toArgs, fromArgs)
  {
    rules := [];
    var t := 0;
    while t < |toArgs|
      invariant 0 <= t <= |toArgs|
      invariant rules == Cross(toArgs[..t], fromArgs)
    {
      var f := 0;
      while f < |fromArgs|
        invariant 0 <= f <= |fromArgs|
        invariant rules == Cross(toArgs[..t], fromArgs) + Row(toArgs[t], fromArgs)[..f]
      {
        rules := rules + [Combine(toArgs[t], fromArgs[f])];
        assert Row(toArgs[t], fromArgs)[..f + 1] == Row(toArgs[t], fromArgs)[..f] + [Combine(toArgs[t], fromArgs[f])];
        f := f + 1;
      }
      assert toArgs[..t + 1][..t] == toArgs[..t];
      assert Row(toArgs[t], fromArgs)[..f] == Row(toArgs[t], fromArgs);
      t := t + 1;
    }
    assert toArgs[..t] == toArgs;
  }

  /** `calculate_inbound_rules`: the clauses' rules concatenated in order;
      an empty clause allows everything. */
  function InboundRules(namespace: string, ingress: seq<IngressClause>, order: KeyOrder): Result<seq<PolicyRule>, PolicyFailure>
  {
    if ingress == [] then Ok([])
    else
      match InboundRules(namespace, ingress[..|ingress| - 1], order)
      case Err(e) => Err(e)
      case Ok(prefix) =>
        var clause := ingress[|ingress| - 1];
        var r := if clause.ports.None? && clause.froms.None? then Ok([ALLOW_ALL]) else ClauseRules(namespace, clause, order);
        if r.Err? then Err(r.error) else Ok(prefix + r.value)
  }

  /** A missing or null ingress list yields no rules; otherwise the result
      is the rules of each clause in turn. */
  method CalculateInboundRules(namespace: string, ingress: Option<seq<IngressClause>>, order: KeyOrder)
    returns (r: Result<seq<PolicyRule>, PolicyFailure>)
    requires ValidKeyOrder(order)
    ensures ingress.None? ==> r == Ok([])
    ensures ingress.Some? ==> r == InboundRules(namespace, ingress.value, order)
  {
    var clauses := ingress.GetOr([]);
    var rules: seq<PolicyRule> := [];
    var k := 0;
    while k < |clauses|
      invariant 0 <= k <= |clauses|
      invariant InboundRules(namespace, clauses[..k], order) == Ok(rules)
    {
      assert clauses[..k + 1][..k] == clauses[..k];
      var clause := clauses[k];
      var res: Result<seq<PolicyRule>, PolicyFailure>;
      if clause.ports.Some? || clause.froms.Some? {
        res := AllowIncomingToRules(namespace, clause, order);
      } else {
        res := Ok([ALLOW_ALL]);
      }
      if res.Err? {
        InboundPrefixFails(namespace, clauses, k + 1, order);
        return Err(res.error);
      }
      rules := rules + res.value;
      k := k + 1;
    }
    assert clauses[..k] == clauses;
    r := Ok(rules);
  }

  lemma {:induction false} InboundPrefixFails(namespace: string, ingress: seq<IngressClause>, n: nat, order: KeyOrder)
    requires n <= |ingress| && InboundRules(namespace, ingress[..n], order).Err?
    ensures InboundRules(namespace, ingress, order) == InboundRules(namespace, ingress[..n], order)
    decreases |ingress| - n
  {
    if n < |ingress| {
      assert ingress[..n + 1][..n] == ingress[..n];
      InboundPrefixFails(namespace, ingress, n + 1, order);
    } else {
      assert ingress[..n] == ingress;
    }
  }

  /** An empty clause and a clause whose ports and from are both missing
      or empty produce the same single allow-all rule. */
  lemma EmptyClauseAllowsAll(namespace: string, clause: IngressClause, order: KeyOrder)
    requires !Given(clause.ports) && !Given(clause.froms)
    ensures ClauseRules(namespace, clause, order) == Ok([ALLOW_ALL])
  {
    var to := [ToArg(None, None)];
    assert to[..0] == [];
    var row := Row(ToArg(None, None), [None]);
    assert |row| == 1 && row[0] == Combine(ToArg(None, None), None) == ALLOW_ALL;
    assert Cross(to, [None]) == [] + row == [ALLOW_ALL];
  }

  /** Every rule of an inbound rule list is an allow rule. */
  lemma {:induction false} InboundAllAllow(namespace: string, ingress: seq<IngressClause>, order: KeyOrder)
    requires InboundRules(namespace, ingress, order).Ok?
    ensures forall k :: 0 <= k < |InboundRules(namespace, ingress, order).value| ==>
      InboundRules(namespace, ingress, order).value[k].action == "allow"
  {
    if ingress != [] {
      var init := ingress[..|ingress| - 1];
      InboundAllAllow(namespace, init, order);
      var clause := ingress[|ingress| - 1];
      if !(clause.ports.None? && clause.froms.None?) {
        ClauseRulesShape(namespace, clause, order);
      }
    }
  }
}
