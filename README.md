# A verified model of the core of Calico

Calico provides network connectivity and network policy for containers and virtual machines. This project models several independent parts of its code base in Dafny and proves properties about them:

- **Felix, the per-host agent.**
  - The dispatch chains that route packets from the two root iptables chains to each endpoint's chains: longest common prefixes, per-character prefix chains, the trailing DROP rule, the chains to delete, and the no-op updates.
  - Chain naming and the multiport split.
  - Selector expressions: the tree, its evaluation, the required label/value pairs and the canonical rendering.
  - The incremental label indexes that keep the matches between selector expressions and labelled items.
  - `SetDelta`.
  - Rule insertion and truncation in an iptables chain.
  - The masquerade pool tracking.
  - The consumption of configuration entries.
- **The OpenStack driver.** The translation of Neutron security-group rules and ports into the etcd data model.
- **The Kubernetes policy agent.** The translation of a NetworkPolicy's ingress clauses into Calico rules.
- **calicoctl.**
  - The profile port-list parser and rule-list editing.
  - IP pool validation and the overlap check.
  - etcd escaping, the IP-version choice, and the ASN conversion from asdot or asdot+ to asplain (RFC 5396).
  - The runtime check, the rkt status and the BIRD protocol-table parser.
  - The diagnostics file name and the error policy of its writer.
  - The checks of `calicoctl checksystem`.
- **The release scripts.** The version classifier and the master-only block filter.
- **The BPF data plane headers.**
  - Program flags, byte order and ports.
  - Packet bounds checks.
  - The rule-match macros of generated policy programs.
  - The NAT lookup.
  - The route lookup and its flags.

Each source file modelled is one module.

- Pure code (expressions and recursion) becomes datatypes, functions and lemmas.
- Objects whose methods update their fields become classes. Their methods say what they change and how. This covers the label indexes, `SetDelta`, the masquerade manager, the configuration object, the iptables chain and the calicoctl rule list.
- Loops become methods with invariants, proved against the functions that specify them.

Every property in the table below is proved for all inputs. Shared helpers live in two modules:

- `Wrappers`: Option and Result.
- `StrUtil`: the Python string built-ins the code uses, such as `split`, `strip`, `lower`, `replace` and `int`.

The code's inputs are modelled as follows:

- **Byte order.** The target's byte order is a parameter of the BPF model, so each property is proved for both little- and big-endian targets.
- **Header sizes.**
  - Ethernet header: 14 bytes (IEEE 802.3, section 3.1.1).
  - IPv4 header without options: 20 bytes (section 3.1 of RFC 791).
  - UDP header: 8 bytes (RFC 768).
- **Maps.** BPF maps are Dafny maps that the code only reads. The random number is a parameter.
- **Hidden code and the outside world become parameters:**
  - the hash behind name shortening;
  - the selector grammar;
  - Python's `repr` and set iteration order;
  - the DNS resolver;
  - the IP pool block-size check;
  - the replies of Docker, rkt and the kernel module lists.

## Model

| member | source | states |
|---|---|---|
| Dispatch.CommonPrefix | calico/felix/test/test_dispatch.py:399-408 | the result is a prefix of both strings, and every common prefix of the two is a prefix of it |
| Dispatch.LongestPrefix | calico/felix/test/test_dispatch.py:399-408 | None exactly for no strings; otherwise a prefix of every string that every common prefix extends, i.e. the longest common prefix |
| Dispatch.PrefixTransitive | calico/felix/test/test_dispatch.py:399-408 | a prefix of a prefix is a prefix |
| Dispatch.PrefixAntisymmetric | calico/felix/test/test_dispatch.py:399-408 | two strings that are prefixes of each other are equal |
| Dispatch.LongestPrefixOrderIndependent | calico/felix/test/test_dispatch.py:410-412 | two lists with the same members (any order, any repetition) have the same longest prefix |
| Dispatch.LongestPrefixExamplesShort | calico/felix/test/test_dispatch.py:400-407 | [] gives None, ["a"] gives "a", ["a",""] gives "", ["a","ab"] gives "a", ["ab","cd"] gives "" |
| Dispatch.LongestPrefixExamplesRepeated | calico/felix/test/test_dispatch.py:404-406 | ["ab","ab"], ["ab","ab","abc"] and ["abc","ab","ab"] all give "ab" |
| Dispatch.LongestPrefixExampleTap | calico/felix/test/test_dispatch.py:408 | ["tapabcd","tapacdef"] gives "tapa" |
| Dispatch.ChainName | calico/felix/frules.py:142-147 | a root is named felix-TO-ENDPOINT or felix-FROM-ENDPOINT, a prefix chain felix-TO-EP-PFX-<c> or felix-FROM-EP-PFX-<c>, an endpoint chain felix-to- or felix-from- plus the interface's suffix; ChainNamesDiffer and EndpointNamesIff prove which names collide |
| Dispatch.ChainNamesDiffer | calico/felix/frules.py:142-147 | distinct chains, at most one of them an endpoint chain, have distinct iptables names |
| Dispatch.EndpointNameBySuffix | calico/felix/frules.py:271-281 | two interfaces with the same suffix name the same endpoint chain |
| Dispatch.EndpointNamesIff | calico/felix/frules.py:271-281 | two endpoint chains of one direction share a name exactly when their interfaces share a suffix |
| Dispatch.EndpointNameCollision | calico/felix/frules.py:271-281 | with the prefix `tap`, the different interfaces `tapx1` and `xtap1` both shorten to `x1` and name the one chain `felix-to-x1` |
| Dispatch.LongInterfaceSuffix | calico/felix/test/test_dispatch.py:125-169 | the over-long interface tapb20123456789012345 gets the hashed 16-character suffix, and the same one in its TO and FROM chain names |
| Dispatch.Dedup | calico/felix/test/test_dispatch.py:56-61 | the same members as the input, without repetitions (the interfaces are held in a set) |
| Dispatch.Keys | calico/felix/test/test_dispatch.py:106-171 | exactly the bucket keys of the interfaces, each once |
| Dispatch.Bucket | calico/felix/test/test_dispatch.py:106-171 | exactly the interfaces with the given key; without repetitions when the input has none |
| Dispatch.WholeBucketSingleton | calico/felix/test/test_dispatch.py:141-144 | a bucket keyed by a whole name holds that one name or nothing |
| Dispatch.CharBucketPrefix | calico/felix/test/test_dispatch.py:141-142 | every member of a character bucket starts with the interface prefix followed by that character |
| Dispatch.PrefixCharsIff | calico/felix/test/test_dispatch.py:141-144 | a character gets a prefix chain exactly when two different interfaces share it after the prefix |
| Dispatch.GroupedHasPrefixChain | calico/felix/test/test_dispatch.py:141-142 | an interface in a bucket of two or more is behind a prefix chain |
| Dispatch.BucketRuleShape | calico/felix/test/test_dispatch.py:138-150 | a bucket's root rule is a goto: an exact match straight to the endpoint chain of an ungrouped interface, or, for a bucket of two or more interfaces, a wildcard on the longest common prefix of its members to that character's prefix chain |
| Dispatch.BucketRuleMatchesOwnKey | calico/felix/test/test_dispatch.py:138-150 | a bucket's root rule matches only interfaces of that bucket |
| Dispatch.BucketRuleOfMember | calico/felix/test/test_dispatch.py:138-150 | every member interface matches its own bucket's rule, which sends it to its prefix chain or endpoint chain |
| Dispatch.Body | calico/felix/test/test_dispatch.py:134-171 | a root or prefix chain's body: its gotos, then the one DROP of unknown-endpoint traffic; BodiesEndInDrop, RoutingCorrect and BucketRuleShape state its meaning |
| Dispatch.NewLeafChains | calico/felix/test/test_dispatch.py:106-114 | the TO and FROM prefix chains of every character that two interfaces share after the prefix; NewLeafChainsIff states it both ways |
| Dispatch.CalculateUpdate | calico/felix/test/test_dispatch.py:106-137 | `_calculate_update`: the programmed prefix chains no longer needed are deleted, the two roots and the new prefix chains are written with their goto targets as dependencies; TreeBuildingChains, EmptySnapshot, RootDeps and PrefixDeps pin it down |
| Dispatch.NewLeafChainsIff | calico/felix/test/test_dispatch.py:106-114 | the new prefix chains are exactly those of characters shared by two or more interfaces |
| Dispatch.UpdateChains | calico/felix/test/test_dispatch.py:106-137 | the chains written are the two roots and the shared-character prefix chains of both directions; to_delete is the programmed chains not rebuilt; deps has an entry for every chain written |
| Dispatch.BodiesEndInDrop | calico/felix/test/test_dispatch.py:56-65 | every body written ends in the one DROP rule, with only gotos before it |
| Dispatch.FirstGotoAgreed | calico/felix/test/test_dispatch.py:56-65 | when every matching goto of a body agrees on a target and one matches, the first match is that target |
| Dispatch.FirstGotoNone | calico/felix/test/test_dispatch.py:56-65 | with no matching goto, control reaches the drop |
| Dispatch.FirstGotoFound | calico/felix/test/test_dispatch.py:56-65 | a goto taken is a matching goto of the body |
| Dispatch.RootGotoOfMember | calico/felix/test/test_dispatch.py:138-150 | the root chain's first matching goto for a member is its bucket's target |
| Dispatch.PrefixGotoOfMember | calico/felix/test/test_dispatch.py:151-170 | a member's prefix chain sends it to its own endpoint chain |
| Dispatch.PrefixGotoOfNonMember | calico/felix/test/test_dispatch.py:151-170 | a prefix chain takes no interface outside the snapshot |
| Dispatch.RoutingCorrect | calico/felix/test/test_dispatch.py:106-171 | per chain value: following the written chains, an interface of the snapshot reaches its own endpoint chain in both directions and any other interface is dropped |
| Dispatch.RoutingCorrectByName | calico/felix/test/test_dispatch.py:106-171 | when no two interfaces of the snapshot share a suffix, the chain an interface reaches is named after that interface and after no other interface of the snapshot |
| Dispatch.RootDeps | calico/felix/test/test_dispatch.py:116-121 | a root depends exactly on its own direction's prefix chains and the endpoint chains of ungrouped interfaces |
| Dispatch.PrefixTargets | calico/felix/test/test_dispatch.py:122-132 | a prefix chain's gotos go exactly to the endpoint chains of its bucket's members |
| Dispatch.PrefixDeps | calico/felix/test/test_dispatch.py:122-132 | a prefix chain depends exactly on the endpoint chains of its members |
| Dispatch.AllSingletons | calico/felix/test/test_dispatch.py:81-104 | when no two interfaces share the character after the prefix, no prefix chain is built, each root holds one exact goto per interface to its endpoint chain before the drop, and depends on exactly those endpoint chains |
| Dispatch.EmptySnapshot | calico/felix/test/test_dispatch.py:246-278 | an empty snapshot writes both roots with only the drop, with empty dependencies, and deletes every programmed prefix chain |
| Dispatch.KeyAfterTap | calico/felix/test/test_dispatch.py:110-112 | a name longer than "tap" that starts with it is keyed by its fourth character |
| Dispatch.TreeKeys | calico/felix/test/test_dispatch.py:110-112 | the tree-building interfaces fall into buckets a, a, a, b, b, c |
| Dispatch.TreeChars | calico/felix/test/test_dispatch.py:141-144 | in that snapshot exactly a and b get prefix chains |
| Dispatch.TreeBuildingChains | calico/felix/test/test_dispatch.py:106-114 | with FROM-EP-PFX-a and -z programmed, to_delete is {FROM-EP-PFX-z} and the new prefix chains are a and b in both directions |
| Dispatch.TreeGrouped | calico/felix/test/test_dispatch.py:106-121 | in the tree-building snapshot every interface but `tapc` sits behind a prefix chain |
| Dispatch.TreeAsWrittenRootDeps | calico/felix/test/test_dispatch.py:116-120 | the recorded TO root dependencies, FROM-EP-PFX-a, FROM-EP-PFX-b and to-c, are exactly what the swapped dependency rule gives |
| Dispatch.TreeRootDepsAsWritten | calico/felix/test/test_dispatch.py:116-142 | the TO root goes to TO-EP-PFX-a, which its computed dependencies hold and the recorded ones lack, while FROM-EP-PFX-a is recorded but not computed |
| Dispatch.RenderRule | calico/felix/test/test_dispatch.py:85-97 | every rendered rule starts with "--append <its chain's name> " |
| Dispatch.RenderBody | calico/felix/test/test_dispatch.py:134-171 | one line per rule, in order, each the rendering of its rule |
| Dispatch.RenderWildcardExample | calico/felix/test/test_dispatch.py:141 | the wildcard goto renders as "--append felix-TO-ENDPOINT --out-interface tapa+ --goto felix-TO-EP-PFX-a" |
| Dispatch.RenderRootDropExample | calico/felix/test/test_dispatch.py:150 | the FROM root's drop renders with the "From unknown endpoint" comment |
| Dispatch.RenderPrefixDropExample | calico/felix/test/test_dispatch.py:166 | a TO prefix chain's drop renders with the "To unknown endpoint" comment |
| Dispatch.SuffixOfTapc | calico/felix/test/test_dispatch.py:144 | tapc has suffix c |
| Dispatch.RenderEndpointExample | calico/felix/test/test_dispatch.py:144 | the exact goto renders as "--append felix-TO-ENDPOINT --out-interface tapc --goto felix-to-c" |
| Dispatch.ListSet | calico/felix/test/test_dispatch.py:56-61 | lists the members of a set, each once |
| Dispatch.DispatchChains.constructor | calico/felix/test/test_dispatch.py:40-45 | the actor starts with no interfaces, no programmed prefix chains and no applied rewrites, so both invariants hold |
| Dispatch.DispatchChains.UpdateChains | calico/felix/test/test_dispatch.py:106-137 | when the updater applies the round: appends one rewrite that is the update computed from the current interfaces and the previously programmed prefix chains, whose new prefix chains become the programmed ones, and the chains then route exactly the current interfaces; when it refuses: the record and the programmed prefix chains are unchanged |
| Dispatch.DispatchChains.ApplySnapshot | calico/felix/test/test_dispatch.py:173-278 | replaces the interfaces by the snapshot's; a snapshot of the current interfaces causes no rewrite and no change, a different one exactly one applied rewrite (none, and no commit, when the updater refuses it) |
| Dispatch.DispatchChains.OnEndpointAdded | calico/felix/test/test_dispatch.py:280-334 | adds the interface; a known interface causes no rewrite and no change, a new one exactly one applied rewrite (none, and no commit, when the updater refuses it) |
| Dispatch.DispatchChains.OnEndpointRemoved | calico/felix/test/test_dispatch.py:336-397 | removes the interface; an absent one causes no rewrite and no change, a present one exactly one applied rewrite (none, and no commit, when the updater refuses it) |
| Frules.HexZeros | calico/felix/test/test_futils.py:41-43 | n lowercase hex digits |
| Frules.UniquelyShorten | calico/felix/test/test_futils.py:37-53 | never longer than the limit; unchanged when shorter than the limit, or of exactly the limit and not starting with '_'; otherwise '_' plus lowercase hex of exactly the limit's length |
| Frules.ShortenCollisionsOnlyFromDigest | calico/felix/test/test_futils.py:46-52 | two different inputs with the same output were both hashed: unchanged and hashed outputs never collide |
| Frules.ShortenTable | calico/felix/test/test_futils.py:37-53 | each row of the table: kept inputs come back unchanged, the others become '_' plus the digest of the input at one less than the limit |
| Frules.InterfaceToSuffix | calico/felix/frules.py:271-281 | at most 16 characters; the name with its first occurrence of the interface prefix removed, wherever that occurs, when that is short enough; the name itself when the prefix is absent |
| Frules.InterfaceToSuffixFirstOccurrence | calico/felix/frules.py:278 | "tapxtap1" gives "xtap1" and "xtap1" gives "x1": only the first occurrence goes, not only at the start |
| Frules.IfaceMatch | calico/felix/frules.py:166-168 | the interface prefix followed by one '+' |
| Frules.WeightAppend | calico/felix/frules.py:134-136 | the entry count of a concatenation is the sum of the counts |
| Frules.WeightPlain | calico/felix/frules.py:134-136 | single ports count one entry each |
| Frules.WeightPrefixMonotone | calico/felix/frules.py:134-136 | a longer prefix of the list counts no fewer entries |
| Frules.FitCount | calico/felix/frules.py:134-136 | the longest prefix within the entry budget: it fits and one more entry would not; a budget of two takes at least one entry |
| Frules.FitCountAll | calico/felix/frules.py:134-136 | a list within the budget fits whole |
| Frules.FitCountAt | calico/felix/frules.py:134-136 | the cut falls exactly where the budget is first exceeded |
| Frules.Chunks | calico/felix/frules.py:134-136 | every chunk is non-empty and holds at most 15 entries, a range counting two |
| Frules.ChunksOne | calico/felix/test/test_fiptgenerator.py:314-319 | a list within 15 entries stays one chunk |
| Frules.ChunksStep | calico/felix/test/test_fiptgenerator.py:320-333 | the first chunk is the longest prefix within 15 entries |
| Frules.ChunksPreserveAndFill | calico/felix/frules.py:134-136 | the chunks concatenate back to the list, and each chunk but the last is full: the next entry would not fit |
| Frules.SplitPortLists | calico/felix/test/test_fiptgenerator.py:313-333 | every chunk is non-empty and holds at most 15 entries |
| Frules.RenderPorts | calico/felix/test/test_fiptgenerator.py:313-333 | one string per port, each its rendering |
| Frules.NumberHasNoColon | calico/felix/test/test_fiptgenerator.py:315-316 | a port number renders without a ':', so it counts one entry |
| Frules.SplitFewNumbers | calico/felix/test/test_fiptgenerator.py:314-319 | one to 15 port numbers stay a single list of their renderings |
| Frules.SplitSixteenNumbers | calico/felix/test/test_fiptgenerator.py:320-326 | sixteen port numbers split into the first 15 and the last one |
| Frules.SplitRangeSecond | calico/felix/test/test_fiptgenerator.py:327-333 | sixteen entries whose second is a range: the range counts two, so the first list ends after 14 entries and the last two form the second |
| Selectors.Eval | calico/felix/selectors.py:96-424 | the `evaluate` methods of every node; EqIff, InIff, HasIff, NegatedOps, AndOrIff and AllMatches state its meaning |
| Selectors.LabelValue | calico/felix/selectors.py:112-116 | the label's value when the key is present, NotPresent exactly when it is missing |
| Selectors.EqIff | calico/felix/selectors.py:267-270 | `k == "v"` holds iff the label is present and equals v |
| Selectors.InIff | calico/felix/selectors.py:291-294 | `k in {...}` holds iff the label is present and its value is in the set |
| Selectors.NegatedOps | calico/felix/selectors.py:308-320 | `!=` and `not in` are the negations of `==` and `in` |
| Selectors.MissingLabel | calico/felix/selectors.py:96-116 | on a missing label `==`, `in` and has() are false, and `!=` and `not in` are true |
| Selectors.HasIff | calico/felix/selectors.py:135-136 | has(k) holds iff k is a key of the labels |
| Selectors.EvalAllIff | calico/felix/selectors.py:359-364 | the and-loop is true iff every child is |
| Selectors.EvalAnyIff | calico/felix/selectors.py:382-387 | the or-loop is true iff some child is |
| Selectors.AndOrIff | calico/felix/selectors.py:355-398 | AndOp holds iff every child holds; OrOp iff some child does |
| Selectors.MkAnd | calico/felix/selectors.py:371-375 | the result holds iff every operand does; a single operand is returned itself |
| Selectors.MkOr | calico/felix/selectors.py:401-405 | the result holds iff some operand does; a single operand is returned itself |
| Selectors.AllMatches | calico/felix/selectors.py:408-424 | ALL_OP matches every label map |
| Selectors.ParseNoCache | calico/felix/selectors.py:589-602 | an empty, blank or "all()" selector becomes ALL_OP; otherwise the grammar's tree, or the BadSelector error carrying the input exactly when the grammar refuses it |
| Selectors.BlankSelectorsMatchAll | calico/felix/selectors.py:589-592 | "" and " all()\t" parse to ALL_OP, which matches everything |
| Selectors.SingletonMembers | calico/felix/selectors.py:296-300 | a one-element set has one member |
| Selectors.IntersectShrinks | calico/felix/selectors.py:389-398 | the or-operator's in-place intersection never adds pairs: the result is within what was collected before and within each child's own pairs |
| Selectors.CollectReqd | calico/felix/selectors.py:366-398 | the pairs `collect_reqd` gathers, with the corrected single-element set; ReqdSound proves every pair holds when the expression matches |
| Selectors.RequiredKvs | calico/felix/selectors.py:446-458 | `required_kvs`: the pairs collected from an empty set; RequiredKvsSound and RequiredKvsExamples state it |
| Selectors.ReqdSound | calico/felix/selectors.py:366-398 | when the expression matches, every pair collected is either one passed in or a pair the labels hold |
| Selectors.ReqdAllSound | calico/felix/selectors.py:366-368 | the and-loop collects only pairs that hold, when every child matches |
| Selectors.RequiredKvsSound | calico/felix/selectors.py:446-458 | every (key, value) of required_kvs is held by any labels the expression matches (corrected single-element set: the pair, not the bare value) |
| Selectors.RequiredKvsExamples | calico/felix/selectors.py:446-458 | `a == "b"` requires (a, b); an and adds each child's pairs; a set of two values requires nothing |
| Selectors.OrDropsEnclosingPairs | calico/felix/selectors.py:389-398 | the in-place intersection of an or inside an and also drops the pairs the and collected before it |
| Selectors.BareValueRequirement | calico/felix/selectors.py:296-300 | as written, `a in {"x"} && has(b)` collects the bare value "x", a requirement no label pair can meet, while the expression matches {a: x, b: y}; the corrected collection gives (a, x) |
| Selectors.CollectReqdValues | calico/felix/selectors.py:366-398 | the in-place recursive collection (with the corrected set case) gives the pairs of the specification function |
| Selectors.Str | calico/felix/selectors.py:189-352 | the canonical rendering of an expression; CollectStrFragments, RenderExample and RenderDistinguishesNegation state it |
| Selectors.ConcatAppend | calico/felix/selectors.py:485-490 | joining fragments distributes over concatenation |
| Selectors.ConcatSnoc | calico/felix/selectors.py:485-490 | appending one fragment appends it to the joined string |
| Selectors.SetStr | calico/felix/selectors.py:189-198 | a set literal renders between braces |
| Selectors.CollectSetFragments | calico/felix/selectors.py:189-198 | the fragments appended join to "{" + the values' reprs separated by "," + "}" |
| Selectors.CollectStrFragments | calico/felix/selectors.py:341-352 | the fragments appended join to the canonical rendering of the expression |
| Selectors.SpacedOperator | calico/felix/selectors.py:248-253 | the spaced operator rendering re-associates |
| Selectors.CollectComparisonFragments | calico/felix/selectors.py:248-305 | a comparison's fragments join to its rendering `lhs op rhs` |
| Selectors.CollectListFragments | calico/felix/selectors.py:341-352 | a list operator's fragments join to "(" + children separated by " op " + ")" |
| Selectors.SingleOperandRendersAsOperand | calico/felix/selectors.py:371-405 | a single-operand and/or renders as its operand; an AndOp of one child is still parenthesised |
| Selectors.RenderExample | calico/felix/selectors.py:341-352 | `a == 'b' && has(c)` renders "(a == 'b' && has(c))" |
| Selectors.RenderSingletonSet | calico/felix/selectors.py:189-198 | `k in {v}` renders "k in {repr(v)}" |
| Selectors.RenderDistinguishesNegation | calico/felix/selectors.py:248-253 | `==` and `!=` of the same operands render differently |
| Selectors.SelectorExpression.Evaluate | calico/felix/selectors.py:443-444 | the top-level expression evaluates its tree |
| Selectors.SelectorExpression.RequiredKvsCached | calico/felix/selectors.py:446-458 | computes required_kvs once and caches it; the string cache is untouched |
| Selectors.SelectorExpression.ToString | calico/felix/selectors.py:485-490 | renders once and caches the string; the pair cache is untouched |
| Selectors.SelectorExpression.Equals | calico/felix/selectors.py:477-483 | two expressions compare equal iff their trees are equal |
| LabelIndex.Values | calico/felix/labels.py:156 | the values recorded under a key, as the one-to-many index iterates them |
| LabelIndex.AddTo | calico/felix/labels.py:104-105 | the index after adding (k, v): exactly the old pairs plus that one |
| LabelIndex.DiscardFrom | calico/felix/labels.py:118-119 | the index after discarding (k, v): exactly the old pairs without that one, with no empty entry left |
| LabelIndex.Transition | calico/felix/labels.py:94-120 | at most one event, none exactly when the match state does not change, a start exactly when it becomes true |
| LabelIndex.MatchIndex.constructor | calico/felix/labels.py:29-37 | no matches, no events, no evaluations |
| LabelIndex.MatchIndex.StoreMatch | calico/felix/labels.py:94-106 | records the pair in both directions; idempotent: fires on_match_started only on a not-matched to matched transition |
| LabelIndex.MatchIndex.DiscardMatch | calico/felix/labels.py:108-120 | removes the pair in both directions; idempotent: fires on_match_stopped only on a matched to not-matched transition |
| LabelIndex.MatchIndex.UpdateMatches | calico/felix/labels.py:73-92 | afterwards the pair is recorded iff expression and labels are both given and the expression matches; nothing else changes; one evaluation counted when both are given |
| LabelIndex.MatchIndex.ScanAllLabels | calico/felix/labels.py:49-52 | re-evaluates the expression against every stored item, leaving exactly the matching items recorded for it |
| LabelIndex.MatchIndex.ScanAllExpressions | calico/felix/labels.py:54-57 | re-evaluates every stored expression against the item's new labels |
| LabelIndex.MatchIndex.DiscardLeftovers | calico/felix/labels.py:237-261 | discards the old matches that were not re-found, completing the expression's column |
| LabelIndex.ColumnReplaced | calico/felix/labels.py:183-270 | once an expression's column is recomputed, the match relation again equals {(e, i) : e matches the labels of i} under the new expressions |
| LabelIndex.ColumnEvents | calico/felix/labels.py:94-120 | the events of one column update are exactly the pairs whose match state changed, start or stop by the new state |
| LabelIndex.LinearScanLabelIndex.constructor | calico/felix/labels.py:29-37 | empty index, no matches |
| LabelIndex.LinearScanLabelIndex.OnExpressionUpdate | calico/felix/labels.py:39-64 | stores or removes the expression, keeps the matches equal to {(e, i) : e matches labels of i}, and fires exactly the start/stop events of the pairs that changed; one evaluation per item when the expression is given |
| LabelIndex.LinearScanLabelIndex.OnLabelsUpdate | calico/felix/labels.py:44-71 | stores or removes the labels, keeps the match relation exact, fires exactly the changed pairs' events; one evaluation per expression when labels are given |
| LabelIndex.LiteralValues | calico/felix/labels.py:194-222 | the values of `k == "v"` or `k in {...}`: {v} for an equality |
| LabelIndex.LiteralEval | calico/felix/labels.py:189-235 | a literal expression matches exactly when the labels hold one of its (key, value) pairs |
| LabelIndex.LabelValueIndex.constructor | calico/felix/labels.py:137-141 | empty indexes |
| LabelIndex.LabelValueIndex.FindBestIndex | calico/felix/labels.py:272-296 | None iff there are no requirements; otherwise one of them, either with fewer than 10 items or with the fewest items of all |
| LabelIndex.LabelValueIndex.DropStalePairs | calico/felix/labels.py:147-152 | afterwards the item is indexed exactly under the old pairs its new labels still hold; other items are untouched |
| LabelIndex.LabelValueIndex.RecheckOldMatches | calico/felix/labels.py:155-160 | re-evaluates every expression the item used to match against the new labels |
| LabelIndex.LabelValueIndex.AddNewPairs | calico/felix/labels.py:161-172 | indexes the item under exactly its new pairs and records every literal expression those pairs satisfy |
| LabelIndex.LabelValueIndex.RecheckNonKv | calico/felix/labels.py:173-179 | re-evaluates every non-literal expression not already seen |
| LabelIndex.LabelValueIndex.OnLabelsUpdate | calico/felix/labels.py:143-181 | stores or removes the labels; the match relation stays exactly {(e, i) : e matches labels of i}, with one event per changed pair; a deletion evaluates nothing |
| LabelIndex.LabelValueIndex.UnindexExpression | calico/felix/labels.py:187-204 | the expression leaves the literal index and the non-literal map |
| LabelIndex.LabelValueIndex.ClearColumn | calico/felix/labels.py:206-212 | a deleted expression's matches are all discarded |
| LabelIndex.LabelValueIndex.StoreLiteralMatches | calico/felix/labels.py:224-236 | every item indexed under one of the literal's pairs is recorded as a match, and the literal is indexed under those pairs |
| LabelIndex.LabelValueIndex.IndexLiteralColumn | calico/felix/labels.py:213-241 | a literal expression's column becomes exactly its matching items, without evaluating anything |
| LabelIndex.LabelValueIndex.IndexedScanColumn | calico/felix/labels.py:245-261 | scanning the items of the best required pair and discarding the leftovers gives exactly the matching items |
| LabelIndex.LabelValueIndex.ScanColumn | calico/felix/labels.py:242-267 | a non-literal expression's column becomes exactly its matching items, by the best index or a full scan |
| LabelIndex.LabelValueIndex.OnExpressionUpdate | calico/felix/labels.py:183-270 | stores or removes the expression; the match relation stays exact, with one event per changed pair; literal expressions and deletions cost no evaluation |
| LabelIndex.MergeParentsLastWins | calico/felix/labels.py:372-378 | a key is in the merged parent labels iff some listed parent has it, and its value comes from the last parent in the list that has it |
| LabelIndex.MergeParentsFrame | calico/felix/labels.py:372-378 | the merge depends only on the listed parents' labels |
| LabelIndex.Lookup | calico/felix/labels.py:320-344 | dict.get: the value when the key is present, None exactly when it is missing |
| LabelIndex.LabelInheritanceIndex.Combined | calico/felix/labels.py:369-387 | the item's own labels override its parents'; every other key comes from the merged parent labels |
| LabelIndex.LabelInheritanceIndex.constructor | calico/felix/labels.py:304-310 | wraps the given index with empty maps and no dirty items |
| LabelIndex.LabelInheritanceIndex.CombineLabels | calico/felix/labels.py:369-387 | the loop computes the combined labels |
| LabelIndex.LabelInheritanceIndex.FlushItem | calico/felix/labels.py:361-387 | passes the item's combined labels, or its deletion, to the wrapped index; other items' matches are unchanged |
| LabelIndex.LabelInheritanceIndex.FlushStep | calico/felix/labels.py:357-358 | one dirty item flushed |
| LabelIndex.LabelInheritanceIndex.Flush | calico/felix/labels.py:355-359 | flushes every dirty item, after which the wrapped index holds every item's combined labels and nothing is dirty |
| LabelIndex.LabelInheritanceIndex.UpdateItemLabels | calico/felix/labels.py:333-339 | stores or removes the labels and marks the item dirty exactly when they changed |
| LabelIndex.LabelInheritanceIndex.UpdateItemParents | calico/felix/labels.py:319-331 | stores or removes the parents, keeps the parent-to-item index, and marks the item dirty exactly when they changed |
| LabelIndex.LabelInheritanceIndex.OnItemUpdate | calico/felix/labels.py:312-317 | after the update the wrapped index holds the item's own labels over its parents' (or nothing when the labels are None), with one event per changed match |
| LabelIndex.LabelInheritanceIndex.OnParentLabelsUpdate | calico/felix/labels.py:341-353 | stores or removes the parent's labels and re-flushes its children, keeping every item's combined labels in the wrapped index |
| Calcollections.PySet.constructor | calico/calcollections.py:33-38 | a caller-owned mutable set holding the given elements |
| Calcollections.SetDelta.constructor | calico/calcollections.py:33-40 | the delta starts empty and refers to the caller's base set itself, not a copy |
| Calcollections.SetDelta.Add | calico/calcollections.py:42-50 | the resulting set gains the entry; a new entry is recorded as added, an entry of the base set cancels a pending removal; the additions and removals stay disjoint from, and within, the base set |
| Calcollections.SetDelta.Remove | calico/calcollections.py:52-60 | the resulting set loses the entry; an entry of the base set is recorded as removed, any other cancels a pending addition |
| Calcollections.SetDelta.ApplyAndReset | calico/calcollections.py:62-67 | the caller's base set object is updated in place to the resulting set, and nothing else outside the delta changes; nothing is pending and the resulting set is unchanged |
| Calcollections.SetDelta.ResultingSize | calico/calcollections.py:69-73 | the base size minus the removals plus the additions is the size of the resulting set |
| Calcollections.SetDelta.Empty | calico/calcollections.py:75-77 | no pending change exactly when the resulting set is the base set |
| Calcollections.SizeAfterDelta | calico/calcollections.py:69-73 | for removals within the base and additions outside it, the size arithmetic is exact |
| Calcollections.NothingPending | calico/calcollections.py:75-77 | for such deltas, no additions and no removals iff applying them leaves the base set unchanged |
| Calcollections.AddAndRemoveExample | calico/test/test_calcollections.py:58-70 | over {a, b, c}: add c, d, e then remove c, d, f records {e} added and {c} removed, and applying turns the caller's own set into {a, b, e} |
| Fiptables.Inserted | calico/felix/fiptables.py:176-185 | python-iptables' insert at an offset: the rule lands at that offset, the rules before and after keep their order |
| Fiptables.FirstIndex | calico/felix/fiptables.py:227 | the offset of the first rule equal to the given one, the one python-iptables deletes |
| Fiptables.Chain.constructor | calico/felix/fiptables.py:203-213 | a chain holding the given rules |
| Fiptables.Chain.InsertAt | calico/felix/fiptables.py:176-185 | the insert succeeds exactly for an offset from 0 to the length, and then places the rule there; otherwise the chain is unchanged |
| Fiptables.Chain.DeleteRule | calico/felix/fiptables.py:227 | deletes the first rule equal to the given one and nothing else |
| Fiptables.InsertRule | calico/felix/fiptables.py:157-188 | the chain ends as the reference result of insert_rule; it raises exactly where that result is None (an offset out of range) and then leaves the chain as it was |
| Fiptables.PosnLastAppends | calico/felix/fiptables.py:170-171 | RULE_POSN_LAST appends the rule, forced or not present |
| Fiptables.InsertRuleOnlyAdds | calico/felix/fiptables.py:157-188 | a successful insert_rule either leaves the chain unchanged or adds the one rule at one offset |
| Fiptables.InsertRuleIdempotent | calico/felix/fiptables.py:178-185 | without forcing, the rule ends up in the chain and inserting it again, at any position, changes nothing |
| Fiptables.ForcedInsertIdempotent | calico/felix/fiptables.py:173-176 | with forcing, the rule ends up at the offset and inserting it there again changes nothing |
| Fiptables.TruncatedAsWritten | calico/felix/fiptables.py:216-227 | the chain truncate_rules leaves, deleting the first equal rule each round: its length is min(length, count) |
| Fiptables.TruncateRules | calico/felix/fiptables.py:216-227 | the loop as written ends with the chain that reference function gives |
| Fiptables.TruncateDeletesEarlierDuplicate | calico/felix/fiptables.py:225-227 | for [A, B, A] truncated to 2 the code leaves [B, A], not the first two rules [A, B] |
| Fiptables.Truncated | calico/felix/fiptables.py:216-224 | the intended result: the first min(length, count) rules, a prefix of the chain |
| Fiptables.DeleteLast | calico/felix/fiptables.py:226-227 | deleting the last rule by offset removes exactly it |
| Fiptables.TruncateRulesByOffset | calico/felix/fiptables.py:216-227 | deleting the last rule by offset until count remain leaves the chain's prefix of that length |
| Fiptables.TruncatedIdempotent | calico/felix/fiptables.py:216-227 | truncating a truncated chain again changes nothing |
| Masq.MasqWithinAll | calico/felix/masq.py:78-83 | the masquerading CIDRs are among all the pool CIDRs |
| Masq.MasqueradeManager.constructor | calico/felix/masq.py:16-32 | no pools, empty IP sets, not dirty |
| Masq.MasqueradeManager.ApplySnapshot | calico/felix/masq.py:55-60 | the pools become exactly the snapshot and the manager is dirty; the IP sets wait for the batch end |
| Masq.MasqueradeManager.OnIpamPoolUpdated | calico/felix/masq.py:63-71 | the pool is stored or deleted, and the manager becomes dirty exactly when the pool differs from the one held |
| Masq.MasqueradeManager.FinishMsgBatch | calico/felix/masq.py:73-86 | when dirty, the IP sets become every pool CIDR and the masquerading pools' CIDRs (masquerade defaults to false); when clean, nothing changes; never dirty afterwards |
| FelixConfig.Config.constructor | calico/felix/config.py:105-112 | the parsed sections are stored and nothing is consumed |
| FelixConfig.Config.GetCfgEntry | calico/felix/config.py:114-134 | section and name are lower-cased; a missing section is an error; a present entry is returned and consumed; otherwise the default, or an error naming the variable and section when there is none |
| FelixConfig.Config.WarnUnusedCfg | calico/felix/config.py:157-168 | one message per entry left unconsumed |
| FelixConfig.UnusedAreUnread | calico/felix/config.py:122-168 | an entry is left for the warning exactly when it was never read |
| FelixConfig.LogLevelFor | calico/felix/config.py:92-103 | a level exactly for the eight names, case-insensitively |
| FelixConfig.WarnSynonyms | calico/felix/config.py:94-95 | warn and warning name WARNING |
| FelixConfig.ErrorSynonyms | calico/felix/config.py:96-97 | err and error name ERROR |
| FelixConfig.CriticalSynonyms | calico/felix/config.py:98-99 | crit and critical name CRITICAL |
| FelixConfig.UnknownLevel | calico/felix/config.py:101-103 | another name has no level (the source's lookup raises) |
| FelixConfig.ValidateMetadata | calico/felix/config.py:136-155 | "none" in any case disables metadata; otherwise success only with a resolvable address and an integer port, which are returned; an unresolvable address or a bad port is an error |
| TEtcd.NeutronRuleToEtcdRule | calico/openstack/t_etcd.py:229-297 | defined exactly for the ethertypes IPv4 and IPv6 (the source's dict lookup raises otherwise), with ip_version 4 or 6 to match |
| TEtcd.ProtocolTranslation | calico/openstack/t_etcd.py:239-245 | no protocol exactly for None or -1; icmp becomes icmp or icmpv6 by ethertype; any other protocol is copied |
| TEtcd.RemoteSide | calico/openstack/t_etcd.py:247-292 | the remote group and net go on the source side of an ingress rule and the destination side of an egress rule, never the other; with neither prefix nor group the net is 0.0.0.0/0 or ::/0 |
| TEtcd.RemoteEndAlwaysConstrained | calico/openstack/t_etcd.py:247-292 | every translated rule constrains its remote end by a tag or a net |
| TEtcd.IcmpFields | calico/openstack/t_etcd.py:257-265 | an ICMP rule takes its type from port_range_min and its code from port_range_max, each omitted when None or -1, and has no ports; other rules have no ICMP fields |
| TEtcd.PortSpec | calico/openstack/t_etcd.py:266-276 | the port list of a non-ICMP rule; PortSpecCases and PortRangeRoundTrip state it |
| TEtcd.RemoteNet | calico/openstack/t_etcd.py:252-255 | the remote prefix, or 0.0.0.0/0 or ::/0 when neither prefix nor group is given; RemoteSide and RemoteEndAlwaysConstrained state it |
| TEtcd.PortSpecCases | calico/openstack/t_etcd.py:266-276 | -1 means 1:65535; equal ends give the single port (none when both are None); different ends give the "min:max" string |
| TEtcd.PortRangeRoundTrip | calico/openstack/t_etcd.py:275-276 | the "min:max" string splits at its one colon back into the two integers |
| TEtcd.PortEtcdData | calico/openstack/t_etcd.py:310-338 | the loop over the fixed IPs builds the reference endpoint data |
| TEtcd.FamilyNets | calico/openstack/t_etcd.py:324-335 | a family's host networks in the order of the fixed IPs; FamilyNetsMembers states it both ways |
| TEtcd.LastGateway | calico/openstack/t_etcd.py:320-333 | the gateway of the last fixed IP of the family that has one; LastGatewayWins states it |
| TEtcd.PortData | calico/openstack/t_etcd.py:310-338 | the endpoint data of a port; PortEtcdData and PortState are proved against it |
| TEtcd.FamilyNetsMembers | calico/openstack/t_etcd.py:324-335 | a net is listed exactly when some fixed IP of that family (IPv6 when the address has a colon) gives it, with /128 or /32 appended |
| TEtcd.LastGatewayWins | calico/openstack/t_etcd.py:320-333 | a family's gateway is the one of the last fixed IP of that family that has one |
| TEtcd.PortState | calico/openstack/t_etcd.py:315 | the state is active exactly when the port is administratively up |
| TEtcd.ProfileTags | calico/openstack/t_etcd.py:341-346 | the tags are the profile id split at underscores: joined back they give the id, and none holds an underscore |
| TEtcd.TranslateRules | calico/openstack/t_etcd.py:353-358 | a list comprehension: defined iff every rule translates, with one translated rule per rule, in order |
| TEtcd.ProfileRules | calico/openstack/t_etcd.py:349-361 | both directions translated rule for rule, defined iff every rule of both lists translates |
| PolicyParser.PodTerms | policy_parser.py:110-111 | one `k == 'v'` term per pod label, in order |
| PolicyParser.NamespaceTerms | policy_parser.py:127-128 | one `k8s_ns/label/k == 'v'` term per namespace label, in order |
| PolicyParser.JoinSnoc | policy_parser.py:115-129 | joining one more part appends the separator and that part (the first part alone is the join) |
| PolicyParser.JoinHead | policy_parser.py:129-139 | a join whose first part is non-empty is non-empty and starts like that part |
| PolicyParser.PodSelector | policy_parser.py:105-119 | the pod labels' `k == 'v'` terms and the namespace term, joined by ` && `; PodSelectorShape states its shape |
| PolicyParser.NamespaceSelector | policy_parser.py:120-139 | the namespace labels' terms joined by ` && `, or `has(calico/k8s_ns)` without labels; NamespaceSelectorShape states it |
| PolicyParser.FromArgs | policy_parser.py:83-140 | one source selector per from clause that yields one, failing at the first clause with both pods and namespaces; FromArgsFailure and FromArgsStep state it |
| PolicyParser.ToArgs | policy_parser.py:142-167 | one to-argument per protocol key, in the dict's iteration order, failing when an entry has no protocol; ToArgsMeaning, ToArgsKeys and ToArgPortsExact state it both ways |
| PolicyParser.ClauseRules | policy_parser.py:46-81 | one clause: a single allow-all rule without ports and froms, else the cross product of to- and from-arguments; ClauseRulesShape and CrossIndex state it |
| PolicyParser.InboundRules | policy_parser.py:21-44 | the rules of every ingress clause concatenated, none without an ingress list; CalculateInboundRules and InboundPrefixFails state it |
| PolicyParser.PodSelectorShape | policy_parser.py:105-119 | a pod selector always ends with the namespace term `calico/k8s_ns == '<ns>'`; with no labels it is that term alone, otherwise the label terms joined by ` && ` before it |
| PolicyParser.NamespaceSelectorShape | policy_parser.py:120-139 | no namespace labels selects every namespace with `has(calico/k8s_ns)`; otherwise the joined label terms, which differ from that |
| PolicyParser.FromArgsFailure | policy_parser.py:99-104 | the from clauses fail exactly when one of them has both pods and namespaces present |
| PolicyParser.GenerateFromArgs | policy_parser.py:83-140 | the loop gives the reference from arguments, raising at the first clause with both keys |
| PolicyParser.FromArgsStep | policy_parser.py:89-140 | one more clause appends its selector, if it yields one |
| PolicyParser.FromArgsPrefixFails | policy_parser.py:99-104 | once a prefix of the clauses fails, the whole list fails with the same error |
| PolicyParser.ArgsFor | policy_parser.py:160-166 | one to-argument per protocol, in the order the protocols are visited |
| PolicyParser.ProtocolsInOrderExact | policy_parser.py:149-155 | the grouped protocols are exactly those of the ports, each once |
| PolicyParser.PortsOfExact | policy_parser.py:151-157 | a port is grouped under a protocol exactly when some entry of that protocol has it and it is truthy |
| PolicyParser.ToArgsMeaning | policy_parser.py:142-167 | for any dict iteration order that visits each key once: fails exactly when an entry has no protocol (None has no lower()); otherwise one argument per protocol, lower-cased, holding every truthy port of it, and no argument with an empty port list |
| PolicyParser.ToArgsKeys | policy_parser.py:148-167 | on success the arguments are one per protocol key of the input, each key exactly once, in the dict's iteration order, argument j carrying key j lower-cased; so two spellings differing only in case give two arguments |
| PolicyParser.ToArgPortsExact | policy_parser.py:148-167 | a port is in argument j's `dst_ports` exactly when some entry with that argument's protocol key carries it as a truthy port: no stray port and none lost |
| PolicyParser.ToArgsOrderIrrelevant | policy_parser.py:162-166 | two dict iteration orders that each visit every key once fail alike, and on success give the same arguments, as many and each present under both |
| PolicyParser.ArgsForMember | policy_parser.py:162-166 | an argument is built for a list of protocols exactly when it is the argument of one of them |
| PolicyParser.GroupPorts | policy_parser.py:148-157 | the grouping loop gives each protocol's truthy ports in input order, and the dict's keys in the order they were first inserted; the dict's iteration order is a separate parameter |
| PolicyParser.GenerateToArgs | policy_parser.py:142-167 | for a dict iteration order that visits each key once, the method gives the reference to-arguments in that order |
| PolicyParser.PortsOfAbsent | policy_parser.py:151-157 | a protocol no entry has groups no ports |
| PolicyParser.Row | policy_parser.py:73-79 | one rule per from-argument |
| PolicyParser.CrossLength | policy_parser.py:71-80 | the rule list has (to-arguments) x (from-arguments) entries |
| PolicyParser.CrossIndex | policy_parser.py:71-80 | the rule for to-argument t and from-argument f sits at t x (from count) + f and combines exactly those two |
| PolicyParser.FromArgValues | policy_parser.py:114-139 | one source selector per from argument |
| PolicyParser.ClauseRulesShape | policy_parser.py:46-81 | every rule allows; with neither ports nor froms the clause is one allow-all rule; otherwise the count is the product of the to- and from-argument counts, a missing side counting as one |
| PolicyParser.CrossAllAllow | policy_parser.py:76 | every combined rule has action allow |
| PolicyParser.AllowIncomingToRules | policy_parser.py:46-81 | the method builds the reference rules of one clause, failing as the argument generators fail |
| PolicyParser.CrossProduct | policy_parser.py:71-80 | the nested loop builds the reference cross product, to-arguments outermost, each list in the order given |
| PolicyParser.CalculateInboundRules | policy_parser.py:21-44 | no ingress list gives no rules; otherwise the clauses' rules concatenated, an empty clause allowing all |
| PolicyParser.InboundPrefixFails | policy_parser.py:32-41 | the first failing clause decides the error |
| PolicyParser.EmptyClauseAllowsAll | policy_parser.py:36-69 | a clause without ports and froms allows all traffic |
| PolicyParser.InboundAllAllow | policy_parser.py:21-44 | every inbound rule allows |
| CtlProfile.FirstSep | calicoctl/calico_ctl/profile.py:513 | the offset of the first `:` or `-` of an item, or its length when it has none |
| CtlProfile.ParseItems | calicoctl/calico_ctl/profile.py:510-534 | when no item fails, one parsed entry per comma-separated piece, each the piece's own parse |
| CtlProfile.ParseItemsStep | calicoctl/calico_ctl/profile.py:512-534 | one more piece appends its parsed entry |
| CtlProfile.ParseItemsPrefixFails | calicoctl/calico_ctl/profile.py:519-533 | the first failing piece decides the error (the source exits there) |
| CtlProfile.ParsePiece | calicoctl/calico_ctl/profile.py:513-534 | the loop body gives the reference parse of one piece: a range canonicalised to "min:max" or refused (min above max, min or max outside 0..65535), or a lone port in range |
| CtlProfile.ParsePorts | calicoctl/calico_ctl/profile.py:490-535 | the method gives the reference result of parse_ports: None for no input, an error for text the list pattern refuses, and otherwise the parsed entries |
| CtlProfile.MatchesPortList | calicoctl/calico_ctl/profile.py:505-506 | the list pattern: every comma-separated piece is a port or a `:`/`-` range; LonePortParses and CanonicalRoundTrip use it |
| CtlProfile.ParseItem | calicoctl/calico_ctl/profile.py:513-534 | one piece: a range checked (minimum above maximum, minimum or maximum above 65535) and canonicalised to "min:max", a lone port range-checked; ParseItemCanonical and DescendingRangeRefused state it |
| CtlProfile.RenderItem | calicoctl/calico_ctl/profile.py:527-534 | the text of an entry as typed back; RenderItemParses proves it parses to the same entry |
| CtlProfile.ParseItemCanonical | calicoctl/calico_ctl/profile.py:513-534 | a parsed entry is canonical: a port in 0..65535 or "lo:hi" with lo <= hi <= 65535 |
| CtlProfile.ParsedPortsCanonical | calicoctl/calico_ctl/profile.py:490-535 | every entry of a successful parse is canonical |
| CtlProfile.DescendingRangeRefused | calicoctl/calico_ctl/profile.py:518-520 | "lo:hi" with lo above hi is refused with the minimum-above-maximum error |
| CtlProfile.RenderItems | calicoctl/calico_ctl/profile.py:527-534 | each entry rendered as the data model stores it, one string per entry |
| CtlProfile.LonePortParses | calicoctl/calico_ctl/profile.py:505-534 | a port's decimal text is a valid item without a range separator or comma |
| CtlProfile.RangeTextParses | calicoctl/calico_ctl/profile.py:513-517 | "lo:hi" is a range item whose separator splits it back into lo and hi |
| CtlProfile.RenderItemParses | calicoctl/calico_ctl/profile.py:513-534 | a canonical entry's rendering parses back to the same entry |
| CtlProfile.CanonicalRoundTrip | calicoctl/calico_ctl/profile.py:490-535 | parse_ports of the comma-joined rendering of a non-empty canonical list gives the list back |
| CtlProfile.ParseItemsAll | calicoctl/calico_ctl/profile.py:510-534 | pieces that each parse to an entry parse to the list of those entries |
| CtlProfile.PortsRejectedUnlessTcpUdp | calicoctl/calico_ctl/profile.py:443-446 | ports are accepted with tcp or udp, or when none are given; any other protocol with source or destination ports is refused |
| CtlProfile.PyInsertOffset | calicoctl/calico_ctl/profile.py:470 | list.insert's offset: within 0..length, equal to the index when it lies there |
| CtlProfile.PyInsert | calicoctl/calico_ctl/profile.py:470 | list.insert adds exactly one element |
| CtlProfile.AddedAsWritten | calicoctl/calico_ctl/profile.py:462-470 | the add branch as written: the rule ends in the list, and a rule already present leaves it unchanged, whatever the position |
| CtlProfile.AddOutOfRangeStillInserts | calicoctl/calico_ctl/profile.py:465-470 | position 0 is reported out of range, yet C is still inserted into [A, B], giving [A, C, B] |
| CtlProfile.FirstIndexOf | calicoctl/calico_ctl/profile.py:483 | the first occurrence, the one list.remove takes |
| CtlProfile.AddMeaning | calicoctl/calico_ctl/profile.py:462-470 | the intended add fails exactly for a position outside 1..length+1; no position appends; a present rule is left alone; otherwise the rule sits at position-1 with the old rules around it in order |
| CtlProfile.AddAgreesInRange | calicoctl/calico_ctl/profile.py:462-470 | for the positions the source accepts, the intended add and the code as written agree |
| CtlProfile.AddThenRemove | calicoctl/calico_ctl/profile.py:462-487 | removing a rule just added, by value or by the position it was added at, restores the list |
| CtlProfile.FirstIndexUnique | calicoctl/calico_ctl/profile.py:483 | the first occurrence is the one before which the rule does not appear |
| CtlProfile.RemoveMeaning | calicoctl/calico_ctl/profile.py:472-487 | an in-range position pops exactly that rule; without a position the removal fails exactly when the rule is absent and otherwise removes one copy of it |
| CtlProfile.RuleList.constructor | calicoctl/calico_ctl/profile.py:456-459 | a rule list holding the profile's rules |
| CtlProfile.RuleList.AddAsWritten | calicoctl/calico_ctl/profile.py:462-470 | the code as written: warns exactly for an out-of-range position and still leaves the as-written list |
| CtlProfile.RuleList.Add | calicoctl/calico_ctl/profile.py:462-470 | the intended add: the list becomes the intended result, or is unchanged on an error |
| CtlProfile.RuleList.Remove | calicoctl/calico_ctl/profile.py:472-487 | the list becomes the result of the remove branch, unchanged on an error, and it warns exactly for an out-of-range position |
| CtlPool.Overlaps | calicoctl/calico_ctl/pool.py:178-181 | two different CIDRs overlap when one lies within the other; OverlapsSymmetric states its symmetry and irreflexivity |
| CtlPool.FirstOverlapping | calicoctl/calico_ctl/pool.py:164-183 | the first pool in list order that overlaps the CIDR; FirstOverlappingMeaning states it both ways |
| CtlPool.NewPools | calicoctl/calico_ctl/pool.py:126-158 | the requested CIDRs checked in order (block size, overlap with an existing pool, overlap with an earlier new one); NewPoolsSound and NewPoolsPrefixFails state it |
| CtlPool.PoolAdd | calicoctl/calico_ctl/pool.py:111-161 | `ip_pool_add`: IP-in-IP on IPv6 is refused, otherwise the new pools; IpPoolAdd is proved against it |
| CtlPool.OverlapsSymmetric | calicoctl/calico_ctl/pool.py:178-181 | the overlap test is symmetric, and a CIDR never overlaps itself (an exact match is allowed, for updates) |
| CtlPool.FirstOverlappingMeaning | calicoctl/calico_ctl/pool.py:164-183 | None exactly when no other pool overlaps; otherwise the first pool in the list that does |
| CtlPool.GetOverlappingPool | calicoctl/calico_ctl/pool.py:164-183 | the loop returns the reference first overlapping pool |
| CtlPool.NewPoolsSound | calicoctl/calico_ctl/pool.py:126-158 | accepted pools are the requested CIDRs in order with the given flags, each a valid block, none overlapping an existing pool or another new one |
| CtlPool.NewPoolsPrefixFails | calicoctl/calico_ctl/pool.py:131-153 | the first CIDR refused decides the error; no pool is added |
| CtlPool.IpPoolAdd | calicoctl/calico_ctl/pool.py:111-161 | fails exactly as the reference does (IP-in-IP on IPv6, a bad block size, an overlap with an existing or a new pool) and adds nothing then; otherwise adds the reference pools in order |
| CtlPool.ValidateRange | calicoctl/calico_ctl/pool.py:63-75 | a range is accepted exactly when both ends are valid addresses of the same version with start below end |
| CtlPool.ValidateArguments | calicoctl/calico_ctl/pool.py:47-75 | with CIDRs given, accepted iff every CIDR is valid; otherwise, with a start or an end given, iff the range is valid; with nothing given, accepted |
| CtlPool.RangeTestCases | calicoctl/tests/unit/pool_test.py:32-41 | the unit-test ranges: 1.2.3.255-1.2.3.1, a bad end, a bad start and a version mismatch are refused; 1.2.3.0-1.2.3.255 is accepted |
| CtlUtils.EscapeEtcd | calicoctl/calico_ctl/utils.py:68-75 | same length, no slash left: every slash becomes a dash and every other character is kept |
| CtlUtils.EscapeEtcdIdempotent | calicoctl/calico_ctl/utils.py:68-75 | escaping twice is escaping once, and a path without slashes is unchanged |
| CtlUtils.GetContainerIpv | calicoctl/calico_ctl/utils.py:78-101 | --ipv4 gives 4; None exactly when no flag and no address argument is given |
| CtlUtils.FirstGiven | calicoctl/calico_ctl/utils.py:87-99 | the version of the first source given, None when none is |
| CtlUtils.GetContainerIpvPrecedence | calicoctl/calico_ctl/utils.py:87-99 | the version comes from the first given of --ipv4, --ipv6, IP, PEER_IP, CIDR, the first of CIDRS, START_IP |
| CtlUtils.ConvertAsnToAsplain | calicoctl/calico_ctl/utils.py:104-117 | a number without a dot is returned unchanged; a dotted one must split into exactly two integers and gives 65536 x left + right; other shapes are errors (the source raises) |
| CtlUtils.DottedPairConverts | calicoctl/calico_ctl/utils.py:113-115 | "a.b" with integer parts gives 65536 x a + b |
| CtlUtils.AsdotConverts | calicoctl/calico_ctl/utils.py:113-115 | the asdot text of two naturals converts to 65536 x high + low |
| CtlUtils.AsdotPlus | calicoctl/calico_ctl/utils.py:104-117 | the asdot+ rendering (high.low for every number) of an AS number holds a dot |
| CtlUtils.AsdotPlusRoundTrip | calicoctl/calico_ctl/utils.py:104-117 | converting the asdot+ rendering of an AS number gives that number back as asplain |
| CtlUtils.Asdot | calicoctl/calico_ctl/utils.py:104-117 | the asdot rendering of RFC 5396 holds a dot exactly for numbers of 65536 and above |
| CtlUtils.AsdotRoundTrip | calicoctl/calico_ctl/utils.py:104-117 | converting the asdot rendering gives the number back: a number below 65536 is passed through as the same plain text, a larger one becomes its asplain value |
| CtlUtils.TwoDotsRefused | calicoctl/calico_ctl/utils.py:114 | a number with two dots does not unpack into two parts and is refused |
| CtlStatus.CheckRuntime | calicoctl/calico_ctl/status.py:52-58 | accepted exactly for docker and rkt, and then the runtime of that name |
| CtlStatus.CheckRuntimeOfName | calicoctl/calico_ctl/status.py:52-58 | each runtime's own name is accepted as that runtime |
| CtlStatus.Statuses | calicoctl/calico_ctl/status.py:150 | the state of each listed container, in order |
| CtlStatus.RktStatus | calicoctl/calico_ctl/status.py:131-159 | a failed `rkt list` is an error, as is an empty list; otherwise "running" exactly when some container runs, else the first container's state |
| CtlStatus.FirstSpace | calicoctl/calico_ctl/status.py:215 | the offset of the first whitespace character, None when there is none |
| CtlStatus.SplitAtMost | calicoctl/calico_ctl/status.py:212-215 | splitting on whitespace with at most n cuts: 1 to n+1 columns, every column but the last free of whitespace, a word without whitespace kept whole, and with enough cuts for the text the last column is free of whitespace too |
| CtlStatus.WsSplit | calicoctl/calico_ctl/status.py:215 | re.split on whitespace: with maxsplit > 0 at most maxsplit+1 columns; with maxsplit 0 no limit, so no column holds whitespace; every column but the last free of whitespace; a word without whitespace kept whole |
| CtlStatus.CleanLine | calicoctl/calico_ctl/status.py:204-208 | the line without the prompt, stripped: empty or starting and ending with a non-space |
| CtlStatus.CleanLinePrompt | calicoctl/calico_ctl/status.py:204-208 | a leading `bird>` prompt is dropped before stripping; other lines are only stripped |
| CtlStatus.IpSep | calicoctl/calico_ctl/status.py:182-187 | the separator that replaces underscores, never an underscore itself |
| CtlStatus.PeerOf | calicoctl/calico_ctl/status.py:233-246 | a peer exactly for names starting Mesh_, Node_ or Global_, with the rest of the name as the address, underscores replaced by the separator |
| CtlStatus.RowOf | calicoctl/calico_ctl/status.py:233-249 | a row exactly for a peer name, with state, since and info (empty without a sixth column) from the columns |
| CtlStatus.ScanLine | calicoctl/calico_ctl/status.py:203-249 | one line adds at most one row and never drops one; a row of the wrong width after the heading stops the scan with the table marked not found |
| CtlStatus.ScanLines | calicoctl/calico_ctl/status.py:198-249 | the line scan only appends rows, and rows whose addresses are free of underscores stay so |
| CtlStatus.BirdProtocols | calicoctl/calico_ctl/status.py:192-256 | the raw output is printed unchanged when no table was parsed; table rows hold converted addresses |
| CtlStatus.PprintBirdProtocols | calicoctl/calico_ctl/status.py:192-256 | the loop gives the reference output |
| CtlStatus.NoHeadingNoTable | calicoctl/calico_ctl/status.py:217-222 | without the heading line no row is ever taken |
| CtlStatus.NoHeadingPrintsRaw | calicoctl/calico_ctl/status.py:217-256 | output without the table heading is printed raw |
| CtlStatus.BadRowAbandons | calicoctl/calico_ctl/status.py:224-229 | a row of other than 5 or 6 columns after the heading abandons the table |
| CtlStatus.SplitAtMostCut | calicoctl/calico_ctl/status.py:212-215 | a cut takes off the first word and splits the rest with one cut fewer; no cut left keeps the line whole, inner spaces included |
| CtlDiags.FirstDoubleBar | calicoctl/calico_ctl/diags.py:134 | the first `||` of the text, None when it has none |
| CtlDiags.RunStart | calicoctl/calico_ctl/diags.py:134 | the start of the whitespace run before an offset, which `\s*` takes with the clause |
| CtlDiags.LineEnd | calicoctl/calico_ctl/diags.py:134 | the end of the line (`.` does not cross a newline) |
| CtlDiags.StripClauses | calicoctl/calico_ctl/diags.py:134 | no `||` is left, and the result is no longer than the command |
| CtlDiags.StripClausesOneLine | calicoctl/calico_ctl/diags.py:134 | on a single line, everything from the whitespace before the first `||` is removed, and a line without one is kept |
| CtlDiags.KeepAllowed | calicoctl/calico_ctl/diags.py:135 | only letters, digits, spaces and dashes remain, and text made only of those is kept |
| CtlDiags.Underscores | calicoctl/calico_ctl/diags.py:136 | every whitespace character becomes an underscore, others are kept |
| CtlDiags.DiagsFilename | calicoctl/calico_ctl/diags.py:133-136 | the file name has only letters, digits, dashes and underscores and is no longer than the command |
| CtlDiags.PlainCommandName | calicoctl/calico_ctl/diags.py:133-136 | a command of letters, digits, spaces and dashes keeps its length, with spaces turned into underscores |
| CtlDiags.UnderscoreDropped | calicoctl/calico_ctl/diags.py:135 | an underscore in the command itself is removed |
| CtlDiags.ExitSwallows | calicoctl/calico_ctl/diags.py:172-194 | the writer swallows exactly the exceptions other than KeyboardInterrupt |
| CtlDiags.ExitPropagates | calicoctl/calico_ctl/diags.py:182-186 | no exception and KeyboardInterrupt are not swallowed; any other exception is |
| CheckSystem.CheckModuleLines | calico_containers/calico_ctl/checksystem.py:116-124 | true exactly when some line contains `/<module>.ko` |
| CheckSystem.BuiltinOpens | calico_containers/calico_ctl/checksystem.py:99-104 | how often the builtin list is read: never more than there are modules, and never when every module is loadable |
| CheckSystem.BuiltinOpenedOnce | calico_containers/calico_ctl/checksystem.py:102-104 | once read, a non-empty builtin list is not read again |
| CheckSystem.CheckModules | calico_containers/calico_ctl/checksystem.py:76-113 | all modules are available exactly when uname succeeds and each is loadable or builtin; a failed uname reads nothing |
| CheckSystem.ZeroRunStart | calico_containers/calico_ctl/checksystem.py:133 | the start of the run of trailing zeros |
| CheckSystem.TrimZeroGroups | calico_containers/calico_ctl/checksystem.py:133 | `re.sub(r'(\.0+)*$', '')`: the result is a prefix, what was cut is a run of `.0…` groups, and no such group is left at the end |
| CheckSystem.ZeroGroupsAppend | calico_containers/calico_ctl/checksystem.py:133 | appending a `.0…` group to such a run gives a run |
| CheckSystem.ParseParts | calico_containers/calico_ctl/checksystem.py:133 | int() of each part: an error exactly when some part is no integer, otherwise one value per part |
| CheckSystem.NormalizeVersion | calico_containers/calico_ctl/checksystem.py:126-133 | one number per dot-separated part of the trimmed version |
| CheckSystem.NormalizeIgnoresZeroGroup | calico_containers/calico_ctl/checksystem.py:133 | a trailing `.0` does not change the normalised version |
| CheckSystem.LexLessIrreflexive | calico_containers/calico_ctl/checksystem.py:158 | Python list comparison: no version is below itself |
| CheckSystem.LexLessTransitive | calico_containers/calico_ctl/checksystem.py:158 | the comparison is transitive |
| CheckSystem.LexLessTotal | calico_containers/calico_ctl/checksystem.py:158 | of two different versions one is below the other |
| CheckSystem.CheckDockerVersion | calico_containers/calico_ctl/checksystem.py:136-168 | no daemon or an API error fails the check; otherwise it passes exactly when the API version is not below 1.16 (1.21 with libnetwork); an unparsable version is an error (the source raises) |
| CheckSystem.TrimNothing | calico_containers/calico_ctl/checksystem.py:133 | a version not ending in 0 is not trimmed |
| CheckSystem.ParseTwoParts | calico_containers/calico_ctl/checksystem.py:133 | two integer parts parse to their values |
| CheckSystem.NormalizePair | calico_containers/calico_ctl/checksystem.py:126-133 | "x.y" with y not ending in 0 normalises to [x, y] |
| CheckSystem.RenderSixteen | calicoctl/calico_ctl/utils.py:27 | DOCKER_VERSION is "1.16" |
| CheckSystem.RenderTwentyOne | calicoctl/calico_ctl/utils.py:28 | DOCKER_LIBNETWORK_VERSION is "1.21" |
| CheckSystem.DockerVersionNormalises | calico_containers/calico_ctl/checksystem.py:126-133 | "1.16" normalises to [1, 16] |
| CheckSystem.LibnetworkVersionNormalises | calico_containers/calico_ctl/checksystem.py:126-133 | "1.21" normalises to [1, 21] |
| CheckSystem.RequiredVersionAccepted | calico_containers/calico_ctl/checksystem.py:136-168 | the required version itself passes the check |
| CheckSystem.CheckSystemOutcome | calico_containers/calico_ctl/checksystem.py:53-73 | a caller that is not root exits with status 2 before any check (`enforce_root`, calicoctl/calico_ctl/utils.py:45-47); for root, exits with status 1 exactly when asked to quit on error and a check failed, and otherwise returns whether both checks passed |
| ReleaseUtils.LeadingDigits | release-scripts/utils.py:24-25 | the length of the leading run of digits that `\d+` takes |
| ReleaseUtils.TakeNumber | release-scripts/utils.py:24-25 | `(\d+)` with int(): the value of the maximal leading run of digits and the rest; None exactly when the text does not start with a digit |
| ReleaseUtils.GetVersionTupleIff | release-scripts/utils.py:147-166 | the result is `Some(v)` exactly when the text, before an optional final newline that `$` allows, reads `v` X `.` Y `.` Z, optionally followed by `.` or `-` and a word-character name, with v's numbers the values of those digit groups and v's name that name (None without one) |
| ReleaseUtils.GetVersionTupleNone | release-scripts/utils.py:147-166 | None exactly when no tuple has that shape in the text |
| ReleaseUtils.GetVersionTupleOfParts | release-scripts/utils.py:24-25 | any digit groups X, Y, Z (leading zeros allowed) and an empty or `[.-]name` tail form a text that parses to (int X, int Y, int Z, name) |
| ReleaseUtils.ParseMajorIff | release-scripts/utils.py:153-164 | the text after the `v` gives `v` exactly when it reads `X.Y.Z` plus a name tail, X being v's major number |
| ReleaseUtils.ParseMinorIff | release-scripts/utils.py:153-164 | the text after the first `.` gives `v` exactly when it reads `Y.Z` plus a name tail, Y being v's minor number |
| ReleaseUtils.ParsePatchIff | release-scripts/utils.py:153-164 | the text after the second `.` gives `v` exactly when it reads `Z` plus a name tail, Z being v's patch number |
| ReleaseUtils.ParseNameIff | release-scripts/utils.py:159-164 | the text after the patch number gives a tuple exactly when it is empty (no name) or `.`/`-` followed by one or more word characters (that name) |
| ReleaseUtils.TakeNumberOfRender | release-scripts/utils.py:24-25 | a rendered number followed by a non-digit is read back as that number |
| ReleaseUtils.LeadingDigitsOfDigits | release-scripts/utils.py:24-25 | the run of digits ends where the digits do |
| ReleaseUtils.NoFinalNewline | release-scripts/utils.py:24-25 | a rendered version has no final newline to drop |
| ReleaseUtils.ParseNameOfSuffix | release-scripts/utils.py:159-164 | the rendered name suffix parses back to the name |
| ReleaseUtils.ParsePatchOfRender | release-scripts/utils.py:24-25 | the rendered patch and suffix parse back |
| ReleaseUtils.ParseMinorOfRender | release-scripts/utils.py:24-25 | the rendered minor, patch and suffix parse back |
| ReleaseUtils.ParseMajorOfRender | release-scripts/utils.py:24-25 | the rendered numbers and suffix parse back |
| ReleaseUtils.VersionRoundTrip | release-scripts/utils.py:147-166 | `vX.Y.Z` or `vX.Y.Z-name` parses back to the version it renders |
| ReleaseUtils.IsMajor | release-scripts/utils.py:121-124 | major one higher, minor and patch zero; BumpClassified proves such bumps are classified major |
| ReleaseUtils.IsMinor | release-scripts/utils.py:126-129 | same major, minor one higher, patch zero |
| ReleaseUtils.IsPatch | release-scripts/utils.py:131-134 | same major and minor, patch one higher |
| ReleaseUtils.IsDevelopment | release-scripts/utils.py:136-140 | same numbers, different name |
| ReleaseUtils.CheckVersionIncrement | release-scripts/utils.py:103-144 | an invalid new version gives None; an invalid old one is an error (the source's unpacking raises); otherwise each increment kind exactly when its condition holds, tried in source order, and None when none does |
| ReleaseUtils.BumpClassified | release-scripts/utils.py:103-144 | bumping the major, minor or patch number, or changing only the name, is classified as that kind |
| ReleaseUtils.FilterLines | release-scripts/utils.py:182-206 | the lines of one file kept and substituted under the master-block markers; UpdateLines, MasterKeepsEverything, ReleaseBlock and MisplacedMarkersFail state it |
| ReleaseUtils.Substituted | release-scripts/utils.py:202-204 | each kept line replaced by the substitution, one for one |
| ReleaseUtils.FilterFrom | release-scripts/utils.py:182-206 | the filter only appends to the lines already kept |
| ReleaseUtils.UpdateLines | release-scripts/utils.py:182-206 | the loop over a file's lines gives the reference lines, failing where an assert fails |
| ReleaseUtils.TextStep | release-scripts/utils.py:201-204 | a text line is substituted and kept when inside an included part, dropped otherwise |
| ReleaseUtils.MarkerStep | release-scripts/utils.py:186-200 | start opens a master block and stops including; else resumes including; end closes the block and includes |
| ReleaseUtils.PlainRun | release-scripts/utils.py:182-204 | a run of text lines is kept whole, substituted, or dropped whole |
| ReleaseUtils.MasterKeepsEverything | release-scripts/utils.py:185-204 | off a release branch every line is kept, substituted, markers included |
| ReleaseUtils.ReleaseBlock | release-scripts/utils.py:182-206 | on a release branch the master-only part of a block is dropped and its else part is kept, with the text around it |
| ReleaseUtils.ConcatShape | release-scripts/utils.py:182-206 | regroups a file made of a text prefix and one block |
| ReleaseUtils.BlockFrom | release-scripts/utils.py:186-206 | from the start marker on, only the else part and the text after the block are kept |
| ReleaseUtils.MisplacedMarkersFail | release-scripts/utils.py:189-206 | a start inside a block, an else or end outside one, and a file ending inside a block are refused |
| ReleaseUtils.UnterminatedBlockFails | release-scripts/utils.py:206 | a block without an end marker is refused |
| ReleaseUtils.MarkerLinesClassified | release-scripts/utils.py:39-41 | the three marker constants are recognised as start, else and end |
| BpfDefs.ExactlyOneRole | bpf/include/bpf.h:139-150 | every flag word gives exactly one of the four attachment roles: from or to a host endpoint, from or to a workload |
| BpfDefs.ToHostDirection | bpf/include/bpf.h:146-153 | traffic goes towards the host exactly when the host-endpoint bit equals the ingress bit; otherwise it comes from the host, to a host endpoint or to a workload |
| BpfDefs.L3ExcludesIpip | bpf/include/bpf.h:154-155 | an L3 program is tunnel egress on a host endpoint, an IPIP-encapsulated one is tunnel ingress, so no program is both |
| BpfDefs.DefaultFlags | bpf/include/bpf.h:135-155 | without compile flags the program is a workload's egress program, sending traffic towards the host, neither L3 nor IPIP |
| BpfDefs.Bswap16 | bpf/include/bpf.h:28-29 | `__builtin_bswap16`: the two bytes exchanged; ByteOrderInvolution proves it undoes itself |
| BpfDefs.Bswap32 | bpf/include/bpf.h:26-27 | `__builtin_bswap32`: the four bytes reversed; Bswap32And states it commutes with masking |
| BpfDefs.Bswap64 | bpf/include/bpf.h:24-25 | `__builtin_bswap64`: the eight bytes reversed |
| BpfDefs.BeToHost16 | bpf/include/bpf.h:23-36 | be16_to_host: a byte swap on a little-endian target, the identity on a big-endian one |
| BpfDefs.HostToBe16 | bpf/include/bpf.h:23-36 | host_to_be16, the same conversion; ByteOrderInvolution pairs it with be16_to_host |
| BpfDefs.BeToHost32 | bpf/include/bpf.h:23-36 | be32_to_host, likewise at 32 bits; BeToHostReadsNetworkOrder states what it reads |
| BpfDefs.HostToBe32 | bpf/include/bpf.h:23-36 | host_to_be32, likewise at 32 bits |
| BpfDefs.Load16 | bpf/include/bpf.h:23-36 | the value a 16-bit load of two memory bytes gives on either target, which the byte-order macros exist for |
| BpfDefs.Load32 | bpf/include/bpf.h:23-36 | the value a 32-bit load of four memory bytes gives on either target |
| BpfDefs.ByteOrderInvolution | bpf/include/bpf.h:23-36 | on either byte order and at 16, 32 and 64 bits, host-to-network and network-to-host conversion undo each other |
| BpfDefs.BeToHostReadsNetworkOrder | bpf/include/bpf.h:23-36 | converting a field loaded from memory gives the number its bytes spell most significant first, on either target |
| BpfDefs.Bswap32And | bpf/include/bpf.h:26-27 | a byte swap commutes with a bitwise and |
| BpfDefs.PortToHost | bpf/include/bpf.h:97-99 | the result has its upper two bytes zero |
| BpfDefs.PortToHostReadsFirstTwoBytes | bpf/include/bpf.h:97-99 | on either target the result is the port spelt by the field's first two memory bytes, below 65536, whatever its last two bytes hold |
| BpfDefs.SafeExtractPort | bpf/include/bpf.h:101-110 | the two 16-bit halves of the field or-ed together; SafeExtractPortKeepsPort states the result |
| BpfDefs.IpIsDnf | bpf/include/bpf.h:180 | the flags word masked with the network-order Don't Fragment bit; IpIsDnfHostOrder and IpIsDnfFirstByte state it |
| BpfDefs.SafeExtractPortKeepsPort | bpf/include/bpf.h:101-110 | the result fits in 16 bits; a value in the low half is returned unchanged and one in the high half is moved down |
| BpfDefs.IpIsDnfHostOrder | bpf/include/bpf.h:180 | the test holds exactly when the host-order flags word has the Don't Fragment bit 0x4000 |
| BpfDefs.IpIsDnfFirstByte | bpf/include/bpf.h:180 | on either target the test holds exactly when the first wire byte of the word has bit 0x40 |
| BpfSkb.SkbShorter | bpf/include/skb.h:27 | data + len beyond data_end; ShorterIsLength states it as a length test |
| BpfSkb.SkbHasDataAfter | bpf/include/skb.h:28-30 | not shorter than the pointer's offset plus the object and the bytes after it; HasDataAfterWithin states it |
| BpfSkb.ShorterIsLength | bpf/include/skb.h:27 | the shorter test holds exactly when the packet length is below the given length |
| BpfSkb.HasDataAfterWithin | bpf/include/skb.h:28-30 | the test holds exactly when the object at the pointer and the bytes after it end at or before data_end |
| BpfSkb.SkbIphdrOffset | bpf/include/skb.h:50-62 | the IPv4 header starts after the Ethernet and outer IP headers on IPIP ingress, at the start on tunnel egress, after the Ethernet header otherwise |
| BpfSkb.IphdrOffsets | bpf/include/skb.h:50-62 | those offsets are 34, 0 and 14 bytes |
| BpfSkb.SkbTooShort | bpf/include/skb.h:35-48 | the length check of each kind of program; TooShortThresholds and TooShortIffNoRoom state it |
| BpfSkb.SkbIphdr | bpf/include/skb.h:50-62 | the address of the IPv4 header at the program's offset; SkbIphdrOffset and NotTooShortHeadersFit state it |
| BpfSkb.TooShortThresholds | bpf/include/skb.h:35-48 | a packet is too short below 62 bytes on IPIP ingress, 28 on tunnel egress and 42 otherwise |
| BpfSkb.TooShortIffNoRoom | bpf/include/skb.h:38-62 | a packet is too short exactly when it cannot hold a 20-byte IPv4 header and an 8-byte UDP header at the program's IPv4 header offset |
| BpfSkb.NotTooShortHeadersFit | bpf/include/skb.h:38-70 | after a passed length check the IPv4 header returned and the UDP header after it lie within the packet |
| BpfPolicy.IpSetKeyOf | bpf/include/policy.h:42-48 | the key is full length (160 bits) with zero padding, carries the address, port and protocol, and its set id converts back to the rule's id |
| BpfPolicy.FallsThroughXor | bpf/include/policy.h:13-19 | a step sends evaluation to the next rule exactly when its test equals its negation flag, and passes exactly when they differ |
| BpfPolicy.RangeHit | bpf/include/policy.h:30-53 | a plain range contains the port, or a named port's set holds the packet's key; PlainRangeInclusive and NamedPortLookup state it |
| BpfPolicy.MatchPortRanges | bpf/include/policy.h:25-56 | the loop reports a match exactly when some range holds: a plain range containing the port, or a named port whose set holds the packet's key |
| BpfPolicy.PlainRangeInclusive | bpf/include/policy.h:30-37 | a plain range contains both its ends, and one whose minimum is above its maximum contains no port |
| BpfPolicy.NamedPortLookup | bpf/include/policy.h:38-53 | a named port holds exactly when the set map has a full-length, zero-padded key for that set id, address, port and protocol |
| BpfPolicy.CidrHit | bpf/include/policy.h:63-64 | the address under the network-order mask equals the network-order CIDR address; CidrHitHostOrder and the CIDR lemmas state it |
| BpfPolicy.MatchCidrs | bpf/include/policy.h:58-70 | the loop reports a match exactly when some CIDR of the rule holds for the address |
| BpfPolicy.CidrHitHostOrder | bpf/include/policy.h:63-64 | on either target the network-order comparison is the host-order test that the address under the mask equals the CIDR's address |
| BpfPolicy.CidrOutsideMaskMatchesNothing | bpf/include/policy.h:63-64 | a CIDR whose address has bits outside its mask matches no address |
| BpfPolicy.CidrFullMaskIsExact | bpf/include/policy.h:63-64 | with an all-ones mask only the CIDR's own address matches |
| BpfPolicy.CidrZeroMatchesAll | bpf/include/policy.h:63-64 | the zero CIDR matches every address |
| BpfPolicy.IpSetHit | bpf/include/policy.h:75-81 | the set map holds the address key of the set; IpSetAddrKey and IpSetKeysDiffer state the key |
| BpfPolicy.IpSetAddrKey | bpf/include/policy.h:75-81 | the key is full length with zero port, protocol and padding, carries the address, and its set id converts back to the rule's id |
| BpfPolicy.IpSetKeysDiffer | bpf/include/policy.h:42-81 | the address-set key and the named-port key of one set and address are equal exactly when the port and protocol are zero |
| BpfRules.RuleMatches | bpf/include/policy.h:13-23 | a rule matches exactly when every one of its steps passes |
| BpfRules.EvalRules | bpf/include/policy.h:89-95 | the result is the action of the first matching rule, and nothing exactly when no rule matches |
| BpfRules.EmptyRuleMatchesAll | bpf/include/policy.h:92-95 | a rule without steps, reached after rules that do not match, decides the packet with its action |
| BpfNat.Ordinal | bpf/include/nat.h:77 | the ordinal is below a non-zero backend count, and is the random value itself when the count is zero |
| BpfNat.NatLookup | bpf/include/nat.h:52-88 | traffic leaving the host namespace and a frontend miss give no destination; a result is the backend map's entry for the frontend's id and the chosen ordinal |
| BpfNat.SkipsNat | bpf/include/nat.h:54-58 | host-endpoint egress or workload ingress; SkipsNatIffFromHost states it |
| BpfNat.SkipsNatIffFromHost | bpf/include/nat.h:54-58 | the lookup is skipped exactly for the programs that see traffic coming from the host |
| BpfNat.NatHit | bpf/include/nat.h:60-87 | towards the host, on a frontend hit, the result is the backend entry at the chosen ordinal, or nothing when that entry is missing |
| BpfNat.BackendOfService | bpf/include/nat.h:75-87 | a selected destination is the backend map's entry for the frontend's id at some ordinal, which is below the backend count for a non-zero count |
| BpfNat.EveryBackendReachable | bpf/include/nat.h:75-81 | every backend of a service below its count is chosen by the random value equal to its ordinal |
| BpfRoutes.TrieKey | bpf-gpl/routes.h:11-19 | a key stands for a prefix exactly when its length is at most 32, and the prefix is that many leading bits of the address in memory order |
| BpfRoutes.LongestMatch | bpf-gpl/routes.h:40-45 | a result is a prefix of the bits that the trie holds, no longer prefix is held, and there is no result exactly when no prefix is held |
| BpfRoutes.CaliRtLookup | bpf-gpl/routes.h:51-57 | a route is found exactly when the trie holds some prefix of length 0 to 32 of the address |
| BpfRoutes.CaliRtLookupFlags | bpf-gpl/routes.h:59-66 | the result is the found route's flags, or CALI_RT_UNKNOWN when there is no route |
| BpfRoutes.LookupIsLongestMatch | bpf-gpl/routes.h:40-57 | the found entry's prefix is at least as long as every trie prefix the address starts with; without one the address starts with no trie prefix |
| BpfRoutes.LookupKeyIsFullAddress | bpf-gpl/routes.h:53-55 | the key the lookup builds stands for all 32 bits of the address |
| BpfRoutes.LookupReadsWireOrder | bpf-gpl/routes.h:13-56 | an address loaded from packet bytes is looked up by those bytes in wire order on either target |
| BpfRoutes.ExactRouteFound | bpf-gpl/routes.h:51-57 | a /32 route for the address is the route found |
| BpfRoutes.DefaultRouteHits | bpf-gpl/routes.h:51-57 | with a default route every lookup finds a route |
| BpfRoutes.IsLocal | bpf-gpl/routes.h:68 | the route's LOCAL bit; RouteTestsOnFlags relates it to the flag tests |
| BpfRoutes.IsHost | bpf-gpl/routes.h:69 | the route's HOST bit |
| BpfRoutes.FlagsLocalHost | bpf-gpl/routes.h:71 | both LOCAL and HOST bits; LocalHostIffBothBits states it |
| BpfRoutes.FlagsLocalWorkload | bpf-gpl/routes.h:72 | LOCAL and WORKLOAD bits; WorkloadLocalOrRemote states it |
| BpfRoutes.FlagsRemoteWorkload | bpf-gpl/routes.h:73 | WORKLOAD without LOCAL; WorkloadLocalOrRemote states it |
| BpfRoutes.LocalHostIffBothBits | bpf-gpl/routes.h:71 | the local-host test holds exactly when both the LOCAL and the HOST bit are set |
| BpfRoutes.WorkloadLocalOrRemote | bpf-gpl/routes.h:72-73 | a workload route is local or remote and never both; these two tests hold exactly for the flags with the WORKLOAD bit |
| BpfRoutes.RouteTestsOnFlags | bpf-gpl/routes.h:68-73 | the flag tests agree with the route tests: local-host is local and host, a local workload is local, a remote one is not |
| BpfRoutes.UnknownMatchesNoTest | bpf-gpl/routes.h:59-73 | an address without a route has flags CALI_RT_UNKNOWN, which pass none of the flag tests |

## Left out

- `calico/felix/dispatch.py` is not part of this model. `Dispatch` is built to the assertions of `calico/felix/test/test_dispatch.py`.
- Dispatch.RoutingCorrect: routing is stated per chain value. Two interfaces whose suffixes coincide (`tapx1` and `xtap1`, Dispatch.EndpointNameCollision) name one iptables chain; halting on such a collision is not modelled. Dispatch.RoutingCorrectByName states routing by name for snapshots without a shared suffix.
- The shortening hash of `uniquely_shorten` is an uninterpreted parameter (lowercase hex digits of the requested length), because the digest is not part of this model. Every property is proved for any such function.
- `OneToManyIndex` is not part of this model. It is modelled as a map from keys to sets.
- The pyparsing grammar of selectors (`calico/felix/selectors.py:496-552`) is a parameter of `ParseNoCache`. Whitespace, quoting and backtracking are not modelled. The base64/sha digest behind a selector's unique id is not modelled either.
- Python's `repr` of a string and the iteration order of a set are parameters of the selector rendering, because both are interpreter details.
- The iteration order of `ports_by_protocol` in `_generate_to_args` (`policy_parser.py:162`) follows Python 2 dict hashing. It is the parameter `order` of `PolicyParser.ToArgs` and the rules built from it, constrained only to visit each key once; PolicyParser.ToArgsOrderIrrelevant shows it affects only the order of the arguments.
- The `Config` constructor's twelve entry reads with their defaults and `int()` conversions are left out. Only `get_cfg_entry`, `warn_unused_cfg`, the metadata rule of `validate_cfg` and the log-level map are modelled. Reading the configuration file and `gethostbyname` are outside the model: the parsed sections and the resolver are parameters.
- The ZeroMQ, subprocess, etcd, Docker, rkt and BIRD I/O is not modelled. The replies, return codes and command outputs are parameters.
- `install_global_rules`, the IPIP device set-up in `frules.py` and the module-level iptc set-up in `fiptables.py` are left out. They are system plumbing.
- `fsocket.py`, `endpoint.py`, `devices.py` and `finterface.py` are left out. They are sockets, sysfs and route plumbing.
- `MasqueradeManager._install_rules` (`calico/felix/masq.py:35-52`) is left out. It creates the two ipsets and inserts the POSTROUTING rule that masquerades traffic from a masquerading pool to an address outside every pool. Both are calls into the ipset and iptables managers, which are not part of this model.
- CheckSystem.TrimZeroGroups: Python's `$` also matches just before a final newline. The source trims `"1.0\n"` to `"1\n"` and `int()` then ignores the newline, giving [1]; the model treats the newline as ordinary text. The inputs here are the `ApiVersion` field of the Docker client's reply and the constants `DOCKER_VERSION` and `DOCKER_LIBNETWORK_VERSION`, which the model takes to hold no newline.
- The actor framework behind `MasqueradeManager` is left out. Each message is taken to be processed to completion.
- Error message texts and logging are not modelled: failures are Result errors. This includes the lone-port message at `calicoctl/calico_ctl/profile.py:532`, which prints a variable of an earlier branch.
- CtlProfile.RuleList.Remove: an out-of-range remove position only prints a message and does not exit (`calicoctl/calico_ctl/profile.py:473-478`). The model reports the warning and leaves the list unchanged.
- netaddr's block-size check on a new pool is the parameter `validBlock` of `CtlPool.PoolAdd`, because netaddr is not part of this model.
- ReleaseUtils.CheckVersionIncrement: an invalid old version makes the source raise a TypeError when it unpacks None (release-scripts/utils.py:118). The model returns an error value instead.
- The declaration-only and logging headers (`bpf_maps.h`, `conntrack.h`, `jump.h`, `log.h`, the legacy `bpf/include/routes.h` and `connect_balancer_maps.h`) are left out. They hold no logic.
- The CALI_DEBUG logging in the BPF headers is not modelled.
- The bpf.h copies of the skb macros (`bpf/include/bpf.h:168-178`) are modelled once, from `skb.h`.
- `skb_tail_len`, `skb_ptr` and `skb_ptr_after` are not modelled: they are plain pointer arithmetic that nothing here relies on.
- `ip4val_to_lpm` is not modelled.
- The `#error` branch for a target that is neither byte order is left out. The model's byte order has exactly two values.
- Packet data words are modelled as their bytes. Only masking, comparison, whole-byte shifts and swaps occur in the modelled code.
- The calico_ip_sets map is modelled as the set of its full-length keys. The macros only look up full-length (160-bit) keys, so shorter prefixes in the trie are not modelled.
- The route trie is a map from bit-string prefixes to routes. Keys longer than 32 bits are refused, as the kernel refuses them.
- The `next_hop`/`if_index` union of `struct cali_rt` is one field.
- BpfNat.Ordinal takes a zero backend count to leave the random value unchanged. This is the BPF semantics of modulo by zero (section 4.1 of RFC 9669).
- StrUtil.Lower: folds only the ASCII letters A to Z. Python's `str.lower` also folds other Unicode letters; the protocol names it is applied to are taken to be ASCII.
- FelixConfig.Config.WarnUnusedCfg: returns the warnings as a set. The source logs one warning per unused entry in the order of the sections, so the order and any repeated warning are not modelled.
- Masq.Masquerades: a pool masquerades when its flag is `Some(true)`. The source tests the truthiness of `pool.get("masquerade", False)`, so a non-boolean truthy value (a non-empty string, a non-zero number) would also masquerade there; the flag is modelled as an optional boolean.
- Dispatch.DispatchChains: when the updater refuses a round, the source raises after changing the interface set, and the model keeps that new set without recording the round. The chains then stay as they were until the next successful round, so `Synced()` is only promised when the round is applied.
- PolicyParser.Combine: pycalico's `Rule(**args)` (`policy_parser.py:80`) is taken as a plain record of the action, source selector, protocol and destination ports. Any validation that constructor performs is in pycalico, which is not part of this model.
- CheckSystem.CheckModules: a missing `modules.dep` or `modules.builtin` makes `open()` raise an uncaught IOError (`calico_containers/calico_ctl/checksystem.py:95`, `:104`) rather than return False. The model takes both files' lines as given, so that failure is not modelled.
- The raw packet programs (XDP and TC redirects, ICMP, connect-time load balancing) are left out, as are the etcd polling driver, the Neutron mechanism driver, the Kubernetes agent plumbing, the CNI plugin and the test stubs. They are I/O and kernel-helper code outside the modelled core.

## Findings

| source | as written | input that shows it | evidently intended | confidence | as-written member | corrected member |
|---|---|---|---|---|---|---|
| calico/felix/selectors.py:296-300 | a single-element `in` set adds the bare value to the required pairs | `a in {"x"} && has(b)` on labels {a: x, b: y}: the requirement is "x", which no (label, value) pair equals, so the value index offers no candidate although the expression matches | add the pair (label, value) | not executed | Selectors.BareValueRequirement | Selectors.RequiredKvsSound |
| calico/felix/fiptables.py:216-227 | truncation deletes the last rule by value, and the deletion removes the first equal rule | chain [A, B, A] truncated to 2 rules leaves [B, A] | keep the first `count` rules, deleting by offset | not executed | Fiptables.TruncateDeletesEarlierDuplicate | Fiptables.TruncateRulesByOffset |
| calicoctl/calico_ctl/profile.py:465-470 | an out-of-range add position prints an error but does not exit, so the insert still runs | position 0 on [A, B] adding C gives [A, C, B] | stop without changing the list | not executed | CtlProfile.AddOutOfRangeStillInserts | CtlProfile.AddMeaning |
| calico/felix/test/test_dispatch.py:116-120 | the tree-building expectation records the TO root chain as depending on the FROM prefix chains (and the FROM root on the TO ones) | the snapshot `tapa1`, `tapa2`, `tapa3`, `tapb1`, `tapb20123456789012345`, `tapc`: the recorded TO dependencies omit `felix-TO-EP-PFX-a`, a chain the TO root goes to (lines 141-142) | a chain depends on its own goto targets | not executed | Dispatch.TreeRootDepsAsWritten | Dispatch.RootDeps |
