/** The Felix dispatch chains: the two root chains that send traffic to or
    from each local endpoint interface on to that endpoint's own chain, with
    a layer of per-character prefix chains when several interfaces share the
    character after the interface prefix. Built to the expectations of
    calico/felix/test/test_dispatch.py (the implementation module
    calico/felix/dispatch.py is not part of this model). */
module Dispatch {
  import opened Wrappers
  import opened StrUtil
  import opened Frules

  // Longest common prefix (`_find_longest_prefix`).

  /** The longest common prefix of two strings. */
  function CommonPrefix(a: string, b: string): (c: string)
    ensures StartsWith(a, c) && StartsWith(b, c)
    ensures forall q :: StartsWith(a, q) && StartsWith(b, q) ==> StartsWith(c, q)
  {
    if a != [] && b != [] && a[0] == b[0] then
      var c := [a[0]] + CommonPrefix(a[1..], b[1..]);
      assert forall q :: StartsWith(a, q) && StartsWith(b, q) ==> StartsWith(c, q) by {
        forall q | StartsWith(a, q) && StartsWith(b, q) ensures StartsWith(c, q) {
          if q != [] {
            assert a[1..][..|q| - 1] == q[1..] && b[1..][..|q| - 1] == q[1..];
            assert StartsWith(a[1..], q[1..]) && StartsWith(b[1..], q[1..]);
          }
        }
      }
      c
    else
      ""
  }

  /** `q` is a prefix of every string in `xs`. */
  predicate CommonToAll(xs: seq<string>, q: string)
  {
    forall i :: 0 <= i < |xs| ==> StartsWith(xs[i], q)
  }

  /** `_find_longest_prefix`: None for no strings, otherwise the longest
      string every one of them starts with. */
  function LongestPrefix(xs: seq<string>): (r: Option<string>)
    ensures r.None? <==> xs == []
    ensures r.Some? ==> CommonToAll(xs, r.value)
    ensures r.Some? ==> forall q :: CommonToAll(xs, q) ==> StartsWith(r.value, q)
  {
    if xs == [] then None
    else if |xs| == 1 then
      assert forall q :: CommonToAll(xs, q) ==> StartsWith(xs[0], q) by {
        forall q | CommonToAll(xs, q) ensures StartsWith(xs[0], q) { assert StartsWith(xs[0], q); }
      }
      Some(xs[0])
    else
      var init := xs[..|xs| - 1];
      var p := LongestPrefix(init).value;
      var c := CommonPrefix(p, xs[|xs| - 1]);
      assert CommonToAll(xs, c) by {
        forall i | 0 <= i < |xs| ensures StartsWith(xs[i], c) {
          if i < |xs| - 1 { assert init[i] == xs[i]; PrefixTransitive(xs[i], p, c); }
        }
      }
      assert forall q :: CommonToAll(xs, q) ==> StartsWith(c, q) by {
        forall q | CommonToAll(xs, q) ensures StartsWith(c, q) {
          assert CommonToAll(init, q) by {
            forall i | 0 <= i < |init| ensures StartsWith(init[i], q) { assert init[i] == xs[i]; }
          }
          assert StartsWith(xs[|xs| - 1], q);
        }
      }
      Some(c)
  }

  lemma PrefixTransitive(a: string, b: string, c: string)
    requires StartsWith(a, b) && StartsWith(b, c)
    ensures StartsWith(a, c)
  {
    assert a[..|c|] == a[..|b|][..|c|];
  }

  /** Two strings that are prefixes of each other are equal. */
  lemma PrefixAntisymmetric(a: string, b: string)
    requires StartsWith(a, b) && StartsWith(b, a)
    ensures a == b
  {
  }

  /** The longest prefix depends only on which strings are given, not on
      their order or repetition. */
  lemma LongestPrefixOrderIndependent(xs: seq<string>, ys: seq<string>)
    requires forall s :: s in xs <==> s in ys
    ensures LongestPrefix(xs) == LongestPrefix(ys)
  {
    if xs != [] {
      assert xs[0] in ys;
      var p, q := LongestPrefix(xs).value, LongestPrefix(ys).value;
      assert CommonToAll(ys, p) by {
        forall i | 0 <= i < |ys| ensures StartsWith(ys[i], p) {
          assert ys[i] in xs;
          var j :| 0 <= j < |xs| && xs[j] == ys[i];
        }
      }
      assert CommonToAll(xs, q) by {
        forall i | 0 <= i < |xs| ensures StartsWith(xs[i], q) {
          assert xs[i] in ys;
          var j :| 0 <= j < |ys| && ys[j] == xs[i];
        }
      }
      PrefixAntisymmetric(p, q);
    } else {
      SameMembersEmpty(xs, ys);
    }
  }

  lemma SameMembersEmpty<T>(xs: seq<T>, ys: seq<T>)
    requires forall s :: s in xs <==> s in ys
    ensures xs == [] <==> ys == []
  {
    if xs != [] { assert xs[0] in ys; }
    if ys != [] { assert ys[0] in xs; }
  }

  /** The cases of test_longest_prefix. */
  lemma LongestPrefixExamplesShort()
    ensures LongestPrefix([]) == None
    ensures LongestPrefix(["a"]) == Some("a")
    ensures LongestPrefix(["a", ""]) == Some("")
    ensures LongestPrefix(["a", "ab"]) == Some("a")
    ensures LongestPrefix(["ab", "cd"]) == Some("")
  {
    assert ["a", ""][..1] == ["a"];
    assert ["a", "ab"][..1] == ["a"];
    assert ["ab", "cd"][..1] == ["ab"];
  }

  lemma LongestPrefixExamplesRepeated()
    ensures LongestPrefix(["ab", "ab"]) == Some("ab")
    ensures LongestPrefix(["ab", "ab", "abc"]) == Some("ab")
    ensures LongestPrefix(["abc", "ab", "ab"]) == Some("ab")
  {
    assert ["ab", "ab"][..1] == ["ab"];
    assert ["ab", "ab", "abc"][..2] == ["ab", "ab"];
    assert ["abc", "ab", "ab"][..2] == ["abc", "ab"] && ["abc", "ab"][..1] == ["abc"];
  }

  lemma LongestPrefixExampleTap()
    ensures LongestPrefix(["tapabcd", "tapacdef"]) == Some("tapa")
  {
    assert ["tapabcd", "tapacdef"][..1] == ["tapabcd"];
    assert CommonPrefix("tapabcd", "tapacdef") == "tapa";
  }

  // Chain names.

  /** Traffic to an endpoint (leaving the host on its interface) or from it. */
  datatype Direction = To | From

  /** The chains the dispatch layer writes or jumps to: a root chain, the
      prefix chain of the interfaces continuing with one character, and an
      endpoint's own chain. */
  datatype Chain = Root(d: Direction) | Leaf(d: Direction, c: char) | Endpoint(d: Direction, iface: string)

  /** The iptables name of a chain: `felix-TO-ENDPOINT`, `felix-TO-EP-PFX-<c>`,
      `felix-to-<suffix>` and their FROM/from counterparts. */
  function ChainName(cfg: Naming, ch: Chain): string
  {
    match ch
    case Root(d) => if d == To then CHAIN_TO_ENDPOINT else CHAIN_FROM_ENDPOINT
    case Leaf(d, c) => (if d == To then CHAIN_TO_LEAF else CHAIN_FROM_LEAF) + "-" + [c]
    case Endpoint(d, iface) => (if d == To then CHAIN_TO_PREFIX else CHAIN_FROM_PREFIX) + InterfaceToSuffix(cfg, iface)
  }

  /** Distinct chains get distinct names, except that two endpoint chains
      share a name when their interfaces shorten to the same suffix. */
  lemma ChainNamesDiffer(cfg: Naming, a: Chain, b: Chain)
    requires !a.Endpoint? || !b.Endpoint?
    requires a != b
    ensures ChainName(cfg, a) != ChainName(cfg, b)
  {
    NameMarks(cfg, a);
    NameMarks(cfg, b);
  }

  /** The characters that tell chain names apart: the seventh tells the
      kind of chain (upper case for root and prefix chains) and the
      direction; for the root and prefix chains the one after "TO-E" or
      "FROM-E" tells them apart, and a prefix chain ends in its character. */
  lemma NameMarks(cfg: Naming, ch: Chain)
    ensures var n := ChainName(cfg, ch);
      |n| > 6 &&
      n[6] == (if ch.Endpoint? then (if ch.d == To then 't' else 'f') else (if ch.d == To then 'T' else 'F')) &&
      (!ch.Endpoint? ==> |n| > 12) &&
      (!ch.Endpoint? && ch.d == To ==> n[10] == (if ch.Root? then 'N' else 'P')) &&
      (!ch.Endpoint? && ch.d == From ==> n[12] == (if ch.Root? then 'N' else 'P')) &&
      (ch.Leaf? ==> n[|n| - 1] == ch.c)
  {
  }

  /** Endpoint chains with equal suffixes are one chain in iptables. */
  lemma EndpointNameBySuffix(cfg: Naming, d: Direction, i: string, j: string)
    requires InterfaceToSuffix(cfg, i) == InterfaceToSuffix(cfg, j)
    ensures ChainName(cfg, Endpoint(d, i)) == ChainName(cfg, Endpoint(d, j))
  {
  }

  /** Endpoint chains of one direction share a name exactly when their
      interfaces shorten to the same suffix. */
  lemma EndpointNamesIff(cfg: Naming, d: Direction, i: string, j: string)
    ensures ChainName(cfg, Endpoint(d, i)) == ChainName(cfg, Endpoint(d, j)) <==>
      InterfaceToSuffix(cfg, i) == InterfaceToSuffix(cfg, j)
  {
    var p := if d == To then CHAIN_TO_PREFIX else CHAIN_FROM_PREFIX;
    assert ChainName(cfg, Endpoint(d, i))[|p|..] == InterfaceToSuffix(cfg, i);
    assert ChainName(cfg, Endpoint(d, j))[|p|..] == InterfaceToSuffix(cfg, j);
  }

  /** Two different interfaces can name one endpoint chain: with the prefix
      `tap`, `tapx1` and `xtap1` both shorten to `x1`, so both endpoint
      chains are `felix-to-x1`. */
  lemma EndpointNameCollision(cfg: Naming)
    requires cfg.ifacePrefix == "tap"
    ensures "tapx1" != "xtap1"
    ensures InterfaceToSuffix(cfg, "tapx1") == "x1" && InterfaceToSuffix(cfg, "xtap1") == "x1"
    ensures ChainName(cfg, Endpoint(To, "tapx1")) == ChainName(cfg, Endpoint(To, "xtap1")) == CHAIN_TO_PREFIX + "x1"
  {
    assert cfg == Naming("tap", cfg.digest);
    InnerTapRemoved(cfg.digest);
    LeadingTapOfX1(cfg.digest);
  }

  lemma LeadingTapOfX1(digest: Digest)
    ensures InterfaceToSuffix(Naming("tap", digest), "tapx1") == "x1"
  {
    assert "tapx1"[..3] == "tap";
    assert FindFirst("tapx1", "tap") == Some(0);
    assert ReplaceFirst("tapx1", "tap", "") == "x1";
  }

  /** No two interfaces of a snapshot shorten to the same suffix. */
  predicate SuffixesDistinct(cfg: Naming, ifaces: seq<string>)
  {
    forall i, j :: i in ifaces && j in ifaces && i != j ==> InterfaceToSuffix(cfg, i) != InterfaceToSuffix(cfg, j)
  }

  /** An over-long interface name is replaced by a hashed suffix, the same in
      the TO and FROM chain names. */
  lemma LongInterfaceSuffix(cfg: Naming, iface: string)
    requires cfg.ifacePrefix == "tap" && iface == "tapb20123456789012345"
    ensures InterfaceToSuffix(cfg, iface) == "_" + cfg.digest("b20123456789012345", 15)
    ensures ChainName(cfg, Endpoint(To, iface)) == "felix-to-" + InterfaceToSuffix(cfg, iface)
    ensures ChainName(cfg, Endpoint(From, iface)) == "felix-from-" + InterfaceToSuffix(cfg, iface)
  {
    assert OccursAt(iface, "tap", 0);
    assert ReplaceFirst(iface, "tap", "") == iface[3..];
    assert iface[3..] == "b20123456789012345";
  }

  // Buckets.

  /** What groups interfaces: the character after the interface prefix, or,
      for a name without one, the whole name (a bucket of its own). */
  datatype Key = Char(c: char) | Whole(name: string)

  function KeyOf(prefix: string, iface: string): Key
  {
    if StartsWith(iface, prefix) && |iface| > |prefix| then Char(iface[|prefix|]) else Whole(iface)
  }

  predicate NoDup<T(==)>(xs: seq<T>)
  {
    forall i, j :: 0 <= i < j < |xs| ==> xs[i] != xs[j]
  }

  /** The interfaces as a set: later repetitions dropped. */
  function Dedup(xs: seq<string>): (r: seq<string>)
    ensures forall x :: x in r <==> x in xs
    ensures NoDup(r)
  {
    if xs == [] then []
    else
      var r := Dedup(xs[..|xs| - 1]);
      assert forall x :: x in xs <==> x in xs[..|xs| - 1] || x == xs[|xs| - 1] by {
        assert xs == xs[..|xs| - 1] + [xs[|xs| - 1]];
      }
      if xs[|xs| - 1] in r then r else r + [xs[|xs| - 1]]
  }

  /** The distinct keys of the interfaces, in order of first appearance. */
  function Keys(prefix: string, xs: seq<string>): (r: seq<Key>)
    ensures forall k :: k in r <==> exists x :: x in xs && KeyOf(prefix, x) == k
    ensures NoDup(r)
  {
    if xs == [] then []
    else
      var r := Keys(prefix, xs[..|xs| - 1]);
      var k := KeyOf(prefix, xs[|xs| - 1]);
      assert forall x :: x in xs <==> x in xs[..|xs| - 1] || x == xs[|xs| - 1] by {
        assert xs == xs[..|xs| - 1] + [xs[|xs| - 1]];
      }
      if k in r then r else r + [k]
  }

  /** The interfaces with key `k`, in input order. */
  function Bucket(prefix: string, xs: seq<string>, k: Key): (r: seq<string>)
    ensures forall x :: x in r <==> x in xs && KeyOf(prefix, x) == k
    ensures NoDup(xs) ==> NoDup(r)
  {
    if xs == [] then []
    else
      var r := Bucket(prefix, xs[..|xs| - 1], k);
      var x := xs[|xs| - 1];
      assert forall y :: y in xs <==> y in xs[..|xs| - 1] || y == x by {
        assert xs == xs[..|xs| - 1] + [x];
      }
      assert NoDup(xs) ==> NoDup(xs[..|xs| - 1]) && x !in xs[..|xs| - 1];
      if KeyOf(prefix, x) == k then r + [x] else r
  }

  /** Without repetitions, a bucket keyed by a whole name has at most one
      member. */
  lemma {:induction false} WholeBucketSingleton(prefix: string, xs: seq<string>, n: string)
    requires NoDup(xs)
    ensures |Bucket(prefix, xs, Whole(n))| == if n in xs && KeyOf(prefix, n) == Whole(n) then 1 else 0
  {
    if xs != [] {
      var init, x := xs[..|xs| - 1], xs[|xs| - 1];
      assert xs == init + [x];
      assert NoDup(init) && x !in init;
      WholeBucketSingleton(prefix, init, n);
    }
  }

  /** Every name in a character bucket starts with the interface prefix
      followed by that character. */
  lemma CharBucketPrefix(prefix: string, xs: seq<string>, c: char)
    ensures CommonToAll(Bucket(prefix, xs, Char(c)), prefix + [c])
  {
    var ms := Bucket(prefix, xs, Char(c));
    forall i | 0 <= i < |ms| ensures StartsWith(ms[i], prefix + [c]) {
      assert KeyOf(prefix, ms[i]) == Char(c);
      assert ms[i][..|prefix| + 1] == ms[i][..|prefix|] + [ms[i][|prefix|]];
    }
  }

  /** Whether an interface sits in a bucket of two or more, behind a prefix
      chain. */
  predicate Grouped(prefix: string, xs: seq<string>, iface: string)
  {
    KeyOf(prefix, iface).Char? && |Bucket(prefix, xs, KeyOf(prefix, iface))| >= 2
  }

  /** The characters whose bucket has a prefix chain. */
  function PrefixChars(prefix: string, xs: seq<string>): set<char>
  {
    set k | k in Keys(prefix, xs) && k.Char? && |Bucket(prefix, xs, k)| >= 2 :: k.c
  }

  /** A character has a prefix chain exactly when two different interfaces
      continue the interface prefix with it. */
  lemma PrefixCharsIff(prefix: string, xs: seq<string>, c: char)
    requires NoDup(xs)
    ensures c in PrefixChars(prefix, xs) <==>
      exists x, y :: x in xs && y in xs && x != y && KeyOf(prefix, x) == Char(c) && KeyOf(prefix, y) == Char(c)
  {
    var ms := Bucket(prefix, xs, Char(c));
    if c in PrefixChars(prefix, xs) {
      var k :| k in Keys(prefix, xs) && k.Char? && |Bucket(prefix, xs, k)| >= 2 && k.c == c;
      assert ms[0] in ms && ms[1] in ms;
    }
    if exists x, y :: x in xs && y in xs && x != y && KeyOf(prefix, x) == Char(c) && KeyOf(prefix, y) == Char(c) {
      var x, y :| x in xs && y in xs && x != y && KeyOf(prefix, x) == Char(c) && KeyOf(prefix, y) == Char(c);
      assert x in ms && y in ms;
      assert IndexOf(ms, x) != IndexOf(ms, y);
      assert Char(c) in Keys(prefix, xs);
    }
  }

  lemma GroupedHasPrefixChain(prefix: string, xs: seq<string>, iface: string)
    requires iface in xs && Grouped(prefix, xs, iface)
    ensures KeyOf(prefix, iface).c in PrefixChars(prefix, xs)
  {
    assert KeyOf(prefix, iface) in Keys(prefix, xs);
  }

  // Rules.

  /** The interface test of a goto rule: `--out-interface <name>` (or
      `--in-interface`) for one interface, `<prefix>+` for all interfaces
      starting with `prefix`. */
  datatype Match = Exact(iface: string) | Wildcard(prefix: string)

  /** A rule of a dispatch chain: a goto, or the final drop. */
  datatype Rule = Goto(m: Match, target: Chain) | DropUnknown

  predicate Matches(m: Match, iface: string)
  {
    match m
    case Exact(n) => iface == n
    case Wildcard(p) => StartsWith(iface, p)
  }

  /** The rule a bucket contributes to a root chain: a wildcard goto on the
      members' longest common prefix to the bucket's prefix chain when it has
      two or more interfaces, otherwise a goto straight to the one
      interface's endpoint chain. */
  function BucketRule(cfg: Naming, d: Direction, xs: seq<string>, k: Key): Rule
    requires k in Keys(cfg.ifacePrefix, xs)
  {
    var ms := Bucket(cfg.ifacePrefix, xs, k);
    var x :| x in xs && KeyOf(cfg.ifacePrefix, x) == k;
    assert x in ms;
    if |ms| >= 2 && k.Char? then Goto(Wildcard(LongestPrefix(ms).value), Leaf(d, k.c))
    else Goto(Exact(ms[0]), Endpoint(d, ms[0]))
  }

  /** What a bucket's root rule is: an exact goto only for an ungrouped
      interface of the bucket, to its endpoint chain; a wildcard goto only
      for a character with a prefix chain, to that chain, matching the
      longest common prefix of the bucket's two or more members. */
  lemma BucketRuleShape(cfg: Naming, d: Direction, xs: seq<string>, k: Key)
    requires NoDup(xs) && k in Keys(cfg.ifacePrefix, xs)
    ensures var r := BucketRule(cfg, d, xs, k);
      r.Goto? &&
      (r.m.Exact? ==>
        (r.m.iface in xs && KeyOf(cfg.ifacePrefix, r.m.iface) == k &&
         !Grouped(cfg.ifacePrefix, xs, r.m.iface) && r.target == Endpoint(d, r.m.iface))) &&
      (r.m.Wildcard? ==>
        (k.Char? && k.c in PrefixChars(cfg.ifacePrefix, xs) && r.target == Leaf(d, k.c) &&
         |Bucket(cfg.ifacePrefix, xs, k)| >= 2 &&
         CommonToAll(Bucket(cfg.ifacePrefix, xs, k), r.m.prefix) &&
         forall q :: CommonToAll(Bucket(cfg.ifacePrefix, xs, k), q) ==> StartsWith(r.m.prefix, q)))
  {
    var ms := Bucket(cfg.ifacePrefix, xs, k);
    var x :| x in xs && KeyOf(cfg.ifacePrefix, x) == k;
    assert x in ms && ms[0] in ms;
  }

  /** A bucket's root rule only ever matches interfaces of that bucket. */
  lemma BucketRuleMatchesOwnKey(cfg: Naming, d: Direction, xs: seq<string>, k: Key, iface: string)
    requires k in Keys(cfg.ifacePrefix, xs)
    requires Matches(BucketRule(cfg, d, xs, k).m, iface)
    ensures KeyOf(cfg.ifacePrefix, iface) == k
  {
    var prefix := cfg.ifacePrefix;
    var ms := Bucket(prefix, xs, k);
    if |ms| >= 2 && k.Char? {
      var p := LongestPrefix(ms).value;
      CharBucketPrefix(prefix, xs, k.c);
      PrefixTransitive(iface, p, prefix + [k.c]);
      assert iface[..|prefix|] == (prefix + [k.c])[..|prefix|];
      assert iface[|prefix|] == (iface[..|prefix| + 1])[|prefix|];
    } else {
      var x :| x in xs && KeyOf(prefix, x) == k;
      assert x in ms;
      assert ms[0] in ms;
    }
  }

  /** Where the root chain sends a member interface. */
  function RootTarget(cfg: Naming, d: Direction, xs: seq<string>, iface: string): Chain
  {
    if Grouped(cfg.ifacePrefix, xs, iface) then Leaf(d, KeyOf(cfg.ifacePrefix, iface).c)
    else Endpoint(d, iface)
  }

  /** A member matches its bucket's root rule, which sends it to its prefix
      chain when grouped and to its endpoint chain otherwise. */
  lemma BucketRuleOfMember(cfg: Naming, d: Direction, xs: seq<string>, iface: string)
    requires NoDup(xs) && iface in xs
    ensures KeyOf(cfg.ifacePrefix, iface) in Keys(cfg.ifacePrefix, xs)
    ensures var r := BucketRule(cfg, d, xs, KeyOf(cfg.ifacePrefix, iface));
      Matches(r.m, iface) && r.target == RootTarget(cfg, d, xs, iface)
  {
    var prefix := cfg.ifacePrefix;
    var k := KeyOf(prefix, iface);
    var ms := Bucket(prefix, xs, k);
    assert iface in ms;
    if !(|ms| >= 2 && k.Char?) {
      if k.Whole? { WholeBucketSingleton(prefix, xs, k.name); }
      assert |ms| == 1 && ms[0] in ms;
    } else {
      assert iface == ms[IndexOf(ms, iface)];
    }
  }

  function IndexOf<T(==)>(ms: seq<T>, x: T): (i: nat)
    requires x in ms
    ensures i < |ms| && ms[i] == x
  {
    if ms[0] == x then 0 else 1 + IndexOf(ms[1..], x)
  }

  /** The gotos of a root chain, one per bucket. */
  function RootRules(cfg: Naming, d: Direction, xs: seq<string>): seq<Rule>
  {
    var keys := Keys(cfg.ifacePrefix, xs);
    seq(|keys|, j requires 0 <= j < |keys| => BucketRule(cfg, d, xs, keys[j]))
  }

  /** The gotos of a prefix chain, one exact goto per member. */
  function PrefixRules(cfg: Naming, d: Direction, xs: seq<string>, c: char): seq<Rule>
  {
    var ms := Bucket(cfg.ifacePrefix, xs, Char(c));
    seq(|ms|, j requires 0 <= j < |ms| => Goto(Exact(ms[j]), Endpoint(d, ms[j])))
  }

  /** The body written for a root or prefix chain: its gotos, then the drop
      of traffic to or from an unknown endpoint. */
  function Body(cfg: Naming, xs: seq<string>, ch: Chain): seq<Rule>
    requires !ch.Endpoint?
  {
    match ch
    case Root(d) => RootRules(cfg, d, xs) + [DropUnknown]
    case Leaf(d, c) => PrefixRules(cfg, d, xs, c) + [DropUnknown]
  }

  /** The goto targets of a chain body. */
  function Targets(body: seq<Rule>): set<Chain>
  {
    set r | r in body && r.Goto? :: r.target
  }

  /** The prefix chains of both directions. */
  function NewLeafChains(prefix: string, xs: seq<string>): set<Chain>
  {
    var chars := PrefixChars(prefix, xs);
    (set c | c in chars :: Leaf(To, c)) + (set c | c in chars :: Leaf(From, c))
  }

  /** The chains written: the two roots and the prefix chains. */
  function Written(prefix: string, xs: seq<string>): set<Chain>
  {
    {Root(To), Root(From)} + NewLeafChains(prefix, xs)
  }

  /** What `_calculate_update` returns: the prefix chains to delete, each
      written chain's dependencies, the chain bodies to write, and the prefix
      chains now programmed. */
  datatype ChainUpdate = ChainUpdate(
    toDelete: set<Chain>,
    deps: map<Chain, set<Chain>>,
    updates: map<Chain, seq<Rule>>,
    newLeafChains: set<Chain>)

  /** `_calculate_update(ifaces)` against the prefix chains already
      programmed. */
  function CalculateUpdate(cfg: Naming, programmed: set<Chain>, ifaces: seq<string>): ChainUpdate
  {
    var xs := Dedup(ifaces);
    var updates := map ch | ch in Written(cfg.ifacePrefix, xs) :: Body(cfg, xs, ch);
    var newLeaf := NewLeafChains(cfg.ifacePrefix, xs);
    ChainUpdate(programmed - newLeaf, map ch | ch in updates :: Targets(updates[ch]), updates, newLeaf)
  }

  // What the update contains.

  lemma NewLeafChainsIff(prefix: string, xs: seq<string>, ch: Chain)
    ensures ch in NewLeafChains(prefix, xs) <==> ch.Leaf? && ch.c in PrefixChars(prefix, xs)
  {
    if ch.Leaf? && ch.c in PrefixChars(prefix, xs) {
      if ch.d == To {
        assert ch in (set c | c in PrefixChars(prefix, xs) :: Leaf(To, c));
      } else {
        assert ch in (set c | c in PrefixChars(prefix, xs) :: Leaf(From, c));
      }
    }
  }

  /** The chains written are the two roots and, in both directions, the
      prefix chain of every character shared by two or more interfaces; the
      prefix chains to delete are those programmed and not regenerated. */
  lemma UpdateChains(cfg: Naming, programmed: set<Chain>, ifaces: seq<string>, ch: Chain)
    ensures var u := CalculateUpdate(cfg, programmed, ifaces);
      var chars := PrefixChars(cfg.ifacePrefix, Dedup(ifaces));
      (ch in u.updates <==> ch.Root? || (ch.Leaf? && ch.c in chars)) &&
      (ch in u.newLeafChains <==> ch.Leaf? && ch.c in chars) &&
      (ch in u.toDelete <==> ch in programmed && !(ch.Leaf? && ch.c in chars)) &&
      u.deps.Keys == u.updates.Keys
  {
    NewLeafChainsIff(cfg.ifacePrefix, Dedup(ifaces), ch);
    var u := CalculateUpdate(cfg, programmed, ifaces);
    assert u.updates.Keys == Written(cfg.ifacePrefix, Dedup(ifaces));
    if ch.Root? {
      assert ch == Root(ch.d);
      match ch.d
      case To => assert ch == Root(To);
      case From => assert ch == Root(From);
    }
  }

  /** Each body ends in the one drop rule and has only gotos before it. */
  lemma BodiesEndInDrop(cfg: Naming, programmed: set<Chain>, ifaces: seq<string>, ch: Chain)
    requires ch in CalculateUpdate(cfg, programmed, ifaces).updates
    ensures var b := CalculateUpdate(cfg, programmed, ifaces).updates[ch];
      |b| >= 1 && b[|b| - 1] == DropUnknown && forall j :: 0 <= j < |b| - 1 ==> b[j].Goto?
  {
    var xs := Dedup(ifaces);
    UpdateChains(cfg, programmed, ifaces, ch);
    assert CalculateUpdate(cfg, programmed, ifaces).updates[ch] == Body(cfg, xs, ch);
    BodyEndsInDrop(cfg, xs, ch);
  }

  lemma BodyEndsInDrop(cfg: Naming, xs: seq<string>, ch: Chain)
    requires !ch.Endpoint?
    ensures var b := Body(cfg, xs, ch);
      |b| >= 1 && b[|b| - 1] == DropUnknown && forall j :: 0 <= j < |b| - 1 ==> b[j].Goto?
  {
  }

  // Where a packet goes: the root chain's first matching goto, then, when
  // that leads to a written prefix chain, that chain's first match.

  /** The target of the first goto in `body` that matches `iface`; None when
      the drop (or the end) comes first. */
  function FirstGoto(body: seq<Rule>, iface: string): Option<Chain>
  {
    if body == [] then None
    else match body[0]
      case DropUnknown => None
      case Goto(m, t) => if Matches(m, iface) then Some(t) else FirstGoto(body[1..], iface)
  }

  datatype Verdict = Dropped | ToChain(chain: Chain)

  /** The fate of a packet to (or from) `iface`: every written body ends in
      the drop, so a packet no goto takes is dropped. */
  function Route(updates: map<Chain, seq<Rule>>, d: Direction, iface: string): Verdict
  {
    if Root(d) !in updates then Dropped
    else match FirstGoto(updates[Root(d)], iface)
      case None => Dropped
      case Some(t) =>
        if t !in updates then ToChain(t)
        else match FirstGoto(updates[t], iface)
          case None => Dropped
          case Some(t2) => ToChain(t2)
  }

  /** Gotos whose matching members all agree on one target: the first match
      goes there. */
  lemma {:induction false} FirstGotoAgreed(gs: seq<Rule>, iface: string, t: Chain)
    requires forall j :: 0 <= j < |gs| ==> gs[j].Goto?
    requires forall j :: 0 <= j < |gs| && Matches(gs[j].m, iface) ==> gs[j].target == t
    requires exists j :: 0 <= j < |gs| && Matches(gs[j].m, iface)
    ensures FirstGoto(gs + [DropUnknown], iface) == Some(t)
  {
    assert (gs + [DropUnknown])[0] == gs[0];
    if !Matches(gs[0].m, iface) {
      assert (gs + [DropUnknown])[1..] == gs[1..] + [DropUnknown];
      var j :| 0 <= j < |gs| && Matches(gs[j].m, iface);
      assert gs[1..][j - 1] == gs[j];
      FirstGotoAgreed(gs[1..], iface, t);
    }
  }

  /** Gotos none of which matches: the drop is reached. */
  lemma {:induction false} FirstGotoNone(gs: seq<Rule>, iface: string)
    requires forall j :: 0 <= j < |gs| ==> gs[j].Goto? && !Matches(gs[j].m, iface)
    ensures FirstGoto(gs + [DropUnknown], iface) == None
  {
    if gs != [] {
      assert (gs + [DropUnknown])[0] == gs[0];
      assert (gs + [DropUnknown])[1..] == gs[1..] + [DropUnknown];
      FirstGotoNone(gs[1..], iface);
    }
  }

  /** A goto taken is a matching goto of the body. */
  lemma {:induction false} FirstGotoFound(body: seq<Rule>, iface: string)
    requires FirstGoto(body, iface).Some?
    ensures exists j :: 0 <= j < |body| && body[j].Goto? && Matches(body[j].m, iface) &&
                        body[j].target == FirstGoto(body, iface).value
  {
    if !(body[0].Goto? && Matches(body[0].m, iface)) {
      FirstGotoFound(body[1..], iface);
      var j :| 0 <= j < |body[1..]| && body[1..][j].Goto? && Matches(body[1..][j].m, iface) &&
        body[1..][j].target == FirstGoto(body[1..], iface).value;
      assert body[j + 1] == body[1..][j];
    }
  }

  /** A member's root-chain goto. */
  lemma RootGotoOfMember(cfg: Naming, d: Direction, xs: seq<string>, iface: string)
    requires NoDup(xs) && iface in xs
    ensures FirstGoto(Body(cfg, xs, Root(d)), iface) == Some(RootTarget(cfg, d, xs, iface))
  {
    var keys := Keys(cfg.ifacePrefix, xs);
    var gs := RootRules(cfg, d, xs);
    var t := RootTarget(cfg, d, xs, iface);
    BucketRuleOfMember(cfg, d, xs, iface);
    forall j | 0 <= j < |gs| && Matches(gs[j].m, iface) ensures gs[j].target == t {
      BucketRuleMatchesOwnKey(cfg, d, xs, keys[j], iface);
    }
    var i := IndexOf(keys, KeyOf(cfg.ifacePrefix, iface));
    assert Matches(gs[i].m, iface);
    FirstGotoAgreed(gs, iface, t);
  }

  /** A member's prefix-chain goto. */
  lemma PrefixGotoOfMember(cfg: Naming, d: Direction, xs: seq<string>, iface: string)
    requires NoDup(xs) && iface in xs && KeyOf(cfg.ifacePrefix, iface).Char?
    ensures FirstGoto(Body(cfg, xs, Leaf(d, KeyOf(cfg.ifacePrefix, iface).c)), iface) == Some(Endpoint(d, iface))
  {
    var c := KeyOf(cfg.ifacePrefix, iface).c;
    var ms := Bucket(cfg.ifacePrefix, xs, Char(c));
    var gs := PrefixRules(cfg, d, xs, c);
    var i := IndexOf(ms, iface);
    assert Matches(gs[i].m, iface);
    FirstGotoAgreed(gs, iface, Endpoint(d, iface));
  }

  /** No goto of a prefix chain takes an interface that is not a member. */
  lemma PrefixGotoOfNonMember(cfg: Naming, d: Direction, xs: seq<string>, c: char, iface: string)
    requires iface !in xs
    ensures FirstGoto(Body(cfg, xs, Leaf(d, c)), iface) == None
  {
    FirstGotoNone(PrefixRules(cfg, d, xs, c), iface);
  }

  /** The dispatch chains route each interface of the snapshot, in both
      directions, to its own endpoint chain (through its prefix chain when it
      shares the character after the prefix), and drop traffic of every
      other interface. */
  lemma RoutingCorrect(cfg: Naming, programmed: set<Chain>, ifaces: seq<string>, d: Direction, iface: string)
    ensures var u := CalculateUpdate(cfg, programmed, ifaces);
      Route(u.updates, d, iface) == if iface in ifaces then ToChain(Endpoint(d, iface)) else Dropped
  {
    var u := CalculateUpdate(cfg, programmed, ifaces);
    var xs := Dedup(ifaces);
    UpdateChains(cfg, programmed, ifaces, Root(d));
    assert u.updates[Root(d)] == Body(cfg, xs, Root(d));
    if iface in ifaces {
      RootGotoOfMember(cfg, d, xs, iface);
      var t := RootTarget(cfg, d, xs, iface);
      UpdateChains(cfg, programmed, ifaces, t);
      if Grouped(cfg.ifacePrefix, xs, iface) {
        GroupedHasPrefixChain(cfg.ifacePrefix, xs, iface);
        assert u.updates[t] == Body(cfg, xs, t);
        PrefixGotoOfMember(cfg, d, xs, iface);
      }
    } else if FirstGoto(u.updates[Root(d)], iface).Some? {
      var t := FirstGoto(u.updates[Root(d)], iface).value;
      var body := u.updates[Root(d)];
      FirstGotoFound(body, iface);
      var j :| 0 <= j < |body| && body[j].Goto? && Matches(body[j].m, iface) && body[j].target == t;
      var keys := Keys(cfg.ifacePrefix, xs);
      assert body[j] == BucketRule(cfg, d, xs, keys[j]);
      BucketRuleShape(cfg, d, xs, keys[j]);
      UpdateChains(cfg, programmed, ifaces, t);
      assert u.updates[t] == Body(cfg, xs, t);
      PrefixGotoOfNonMember(cfg, d, xs, t.c, iface);
    }
  }

  /** Routing by iptables name: when no two interfaces of the snapshot share
      a suffix, the chain an interface's packets reach is named after that
      interface and after no other interface of the snapshot. */
  lemma RoutingCorrectByName(cfg: Naming, programmed: set<Chain>, ifaces: seq<string>, d: Direction, iface: string, other: string)
    requires SuffixesDistinct(cfg, ifaces)
    requires iface in ifaces && other in ifaces
    ensures var v := Route(CalculateUpdate(cfg, programmed, ifaces).updates, d, iface);
      v.ToChain? && (ChainName(cfg, v.chain) == ChainName(cfg, Endpoint(d, other)) <==> other == iface)
  {
    RoutingCorrect(cfg, programmed, ifaces, d, iface);
    EndpointNamesIff(cfg, d, iface, other);
  }

  // Dependencies.

  /** A root chain depends on the prefix chains of its direction and on the
      endpoint chains of the interfaces not behind one. */
  lemma RootDeps(cfg: Naming, programmed: set<Chain>, ifaces: seq<string>, d: Direction, ch: Chain)
    ensures var u := CalculateUpdate(cfg, programmed, ifaces);
      var xs := Dedup(ifaces);
      Root(d) in u.deps &&
      (ch in u.deps[Root(d)] <==>
        (ch.Leaf? && ch.d == d && ch.c in PrefixChars(cfg.ifacePrefix, xs)) ||
        (ch.Endpoint? && ch.d == d && ch.iface in ifaces && !Grouped(cfg.ifacePrefix, xs, ch.iface)))
  {
    var u := CalculateUpdate(cfg, programmed, ifaces);
    var xs := Dedup(ifaces);
    UpdateChains(cfg, programmed, ifaces, Root(d));
    assert u.deps[Root(d)] == Targets(Body(cfg, xs, Root(d)));
    RootTargetsOnly(cfg, d, xs, ch);
    RootTargetsLeaf(cfg, d, xs, ch);
    RootTargetsEndpoint(cfg, d, xs, ch);
  }

  /** Every goto of a root chain leads to a prefix chain of its direction or
      to the endpoint chain of an interface not behind one. */
  lemma RootTargetsOnly(cfg: Naming, d: Direction, xs: seq<string>, ch: Chain)
    ensures NoDup(xs) && ch in Targets(Body(cfg, xs, Root(d))) ==>
      (ch.Leaf? && ch.d == d && ch.c in PrefixChars(cfg.ifacePrefix, xs)) ||
      (ch.Endpoint? && ch.d == d && ch.iface in xs && !Grouped(cfg.ifacePrefix, xs, ch.iface))
  {
    var body := Body(cfg, xs, Root(d));
    var keys := Keys(cfg.ifacePrefix, xs);
    if NoDup(xs) && ch in Targets(body) {
      var r :| r in body && r.Goto? && r.target == ch;
      var j := IndexOf(body, r);
      assert j < |keys|;
      assert r == BucketRule(cfg, d, xs, keys[j]);
      BucketRuleShape(cfg, d, xs, keys[j]);
    }
  }

  /** A root chain goes to each prefix chain of its direction. */
  lemma RootTargetsLeaf(cfg: Naming, d: Direction, xs: seq<string>, ch: Chain)
    ensures ch.Leaf? && ch.d == d && ch.c in PrefixChars(cfg.ifacePrefix, xs) ==>
      ch in Targets(Body(cfg, xs, Root(d)))
  {
    var prefix := cfg.ifacePrefix;
    var keys := Keys(prefix, xs);
    if ch.Leaf? && ch.d == d && ch.c in PrefixChars(prefix, xs) {
      var k :| k in keys && k.Char? && |Bucket(prefix, xs, k)| >= 2 && k.c == ch.c;
      var i := IndexOf(keys, k);
      assert Body(cfg, xs, Root(d))[i] == BucketRule(cfg, d, xs, k);
    }
  }

  /** A root chain goes to the endpoint chain of each interface not behind
      a prefix chain. */
  lemma RootTargetsEndpoint(cfg: Naming, d: Direction, xs: seq<string>, ch: Chain)
    ensures NoDup(xs) && ch.Endpoint? && ch.d == d && ch.iface in xs && !Grouped(cfg.ifacePrefix, xs, ch.iface) ==>
      ch in Targets(Body(cfg, xs, Root(d)))
  {
    var prefix := cfg.ifacePrefix;
    if NoDup(xs) && ch.Endpoint? && ch.d == d && ch.iface in xs && !Grouped(prefix, xs, ch.iface) {
      BucketRuleOfMember(cfg, d, xs, ch.iface);
      var i := IndexOf(Keys(prefix, xs), KeyOf(prefix, ch.iface));
      assert Body(cfg, xs, Root(d))[i] == BucketRule(cfg, d, xs, KeyOf(prefix, ch.iface));
    }
  }

  lemma PrefixTargets(cfg: Naming, d: Direction, xs: seq<string>, c: char, ch: Chain)
    ensures ch in Targets(Body(cfg, xs, Leaf(d, c))) <==>
      ch.Endpoint? && ch.d == d && ch.iface in xs && KeyOf(cfg.ifacePrefix, ch.iface) == Char(c)
  {
    var body := Body(cfg, xs, Leaf(d, c));
    var ms := Bucket(cfg.ifacePrefix, xs, Char(c));
    if ch in Targets(body) {
      var r :| r in body && r.Goto? && r.target == ch;
      var j := IndexOf(body, r);
      assert j < |ms| && ms[j] in ms;
    }
    if ch.Endpoint? && ch.d == d && ch.iface in xs && KeyOf(cfg.ifacePrefix, ch.iface) == Char(c) {
      var i := IndexOf(ms, ch.iface);
      assert body[i] in body && body[i].target == ch;
    }
  }

  /** A prefix chain depends on the endpoint chains of its members. */
  lemma PrefixDeps(cfg: Naming, programmed: set<Chain>, ifaces: seq<string>, d: Direction, c: char, ch: Chain)
    requires c in PrefixChars(cfg.ifacePrefix, Dedup(ifaces))
    ensures var u := CalculateUpdate(cfg, programmed, ifaces);
      Leaf(d, c) in u.deps &&
      (ch in u.deps[Leaf(d, c)] <==>
        ch.Endpoint? && ch.d == d && ch.iface in ifaces && KeyOf(cfg.ifacePrefix, ch.iface) == Char(c))
  {
    var u := CalculateUpdate(cfg, programmed, ifaces);
    var xs := Dedup(ifaces);
    UpdateChains(cfg, programmed, ifaces, Leaf(d, c));
    assert u.deps[Leaf(d, c)] == Targets(Body(cfg, xs, Leaf(d, c)));
    PrefixTargets(cfg, d, xs, c, ch);
  }

  /** When no two interfaces share the character after the prefix, there
      are no prefix chains: each root rule is an exact goto from one
      interface to its endpoint chain, every interface has one, and the root
      depends on exactly those endpoint chains. */
  lemma AllSingletons(cfg: Naming, programmed: set<Chain>, ifaces: seq<string>, d: Direction)
    requires PrefixChars(cfg.ifacePrefix, Dedup(ifaces)) == {}
    ensures var u := CalculateUpdate(cfg, programmed, ifaces);
      var body := u.updates[Root(d)];
      u.newLeafChains == {} && u.updates.Keys == {Root(To), Root(From)} &&
      (forall j :: 0 <= j < |body| - 1 ==>
        body[j].Goto? && body[j].m.Exact? && body[j].m.iface in ifaces && body[j].target == Endpoint(d, body[j].m.iface)) &&
      (forall x :: x in ifaces ==> Goto(Exact(x), Endpoint(d, x)) in body) &&
      (forall ch :: ch in u.deps[Root(d)] <==> ch.Endpoint? && ch.d == d && ch.iface in ifaces)
  {
    SingletonsChains(cfg, programmed, ifaces);
    SingletonsBody(cfg, programmed, ifaces, d);
    SingletonsDeps(cfg, programmed, ifaces, d);
  }

  lemma SingletonsChains(cfg: Naming, programmed: set<Chain>, ifaces: seq<string>)
    requires PrefixChars(cfg.ifacePrefix, Dedup(ifaces)) == {}
    ensures var u := CalculateUpdate(cfg, programmed, ifaces);
      u.newLeafChains == {} && u.updates.Keys == {Root(To), Root(From)}
  {
    var u := CalculateUpdate(cfg, programmed, ifaces);
    forall ch ensures ch in u.updates <==> ch == Root(To) || ch == Root(From) {
      UpdateChains(cfg, programmed, ifaces, ch);
      if ch.Root? {
        match ch.d
        case To => assert ch == Root(To);
        case From => assert ch == Root(From);
      }
    }
    forall ch ensures ch !in u.newLeafChains {
      UpdateChains(cfg, programmed, ifaces, ch);
    }
  }

  lemma SingletonsBody(cfg: Naming, programmed: set<Chain>, ifaces: seq<string>, d: Direction)
    requires PrefixChars(cfg.ifacePrefix, Dedup(ifaces)) == {}
    ensures var body := CalculateUpdate(cfg, programmed, ifaces).updates[Root(d)];
      (forall j :: 0 <= j < |body| - 1 ==>
        body[j].Goto? && body[j].m.Exact? && body[j].m.iface in ifaces && body[j].target == Endpoint(d, body[j].m.iface)) &&
      (forall x :: x in ifaces ==> Goto(Exact(x), Endpoint(d, x)) in body)
  {
    var xs := Dedup(ifaces);
    UpdateChains(cfg, programmed, ifaces, Root(d));
    assert CalculateUpdate(cfg, programmed, ifaces).updates[Root(d)] == Body(cfg, xs, Root(d));
    SingletonsRootBody(cfg, ifaces, d);
  }

  lemma SingletonsRootBody(cfg: Naming, ifaces: seq<string>, d: Direction)
    requires PrefixChars(cfg.ifacePrefix, Dedup(ifaces)) == {}
    ensures var body := Body(cfg, Dedup(ifaces), Root(d));
      (forall j :: 0 <= j < |body| - 1 ==>
        body[j].Goto? && body[j].m.Exact? && body[j].m.iface in ifaces && body[j].target == Endpoint(d, body[j].m.iface)) &&
      (forall x :: x in ifaces ==> Goto(Exact(x), Endpoint(d, x)) in body)
  {
    var xs := Dedup(ifaces);
    var prefix := cfg.ifacePrefix;
    var keys := Keys(prefix, xs);
    var body := Body(cfg, xs, Root(d));
    forall j | 0 <= j < |body| - 1
      ensures body[j].Goto? && body[j].m.Exact? && body[j].m.iface in ifaces && body[j].target == Endpoint(d, body[j].m.iface)
    {
      BucketRuleShape(cfg, d, xs, keys[j]);
    }
    forall x | x in ifaces ensures Goto(Exact(x), Endpoint(d, x)) in body {
      BucketRuleOfMember(cfg, d, xs, x);
      if Grouped(prefix, xs, x) { GroupedHasPrefixChain(prefix, xs, x); }
      var i := IndexOf(keys, KeyOf(prefix, x));
      assert body[i] == BucketRule(cfg, d, xs, KeyOf(prefix, x));
      BucketRuleShape(cfg, d, xs, KeyOf(prefix, x));
    }
  }

  lemma SingletonsDeps(cfg: Naming, programmed: set<Chain>, ifaces: seq<string>, d: Direction)
    requires PrefixChars(cfg.ifacePrefix, Dedup(ifaces)) == {}
    ensures var u := CalculateUpdate(cfg, programmed, ifaces);
      forall ch :: ch in u.deps[Root(d)] <==> ch.Endpoint? && ch.d == d && ch.iface in ifaces
  {
    var u := CalculateUpdate(cfg, programmed, ifaces);
    var xs := Dedup(ifaces);
    var prefix := cfg.ifacePrefix;
    UpdateChains(cfg, programmed, ifaces, Root(d));
    forall ch ensures ch in u.deps[Root(d)] <==> ch.Endpoint? && ch.d == d && ch.iface in ifaces {
      RootDeps(cfg, programmed, ifaces, d, ch);
      if ch.Endpoint? && ch.iface in ifaces && Grouped(prefix, xs, ch.iface) {
        GroupedHasPrefixChain(prefix, xs, ch.iface);
      }
    }
  }

  /** An empty snapshot: both roots hold only the drop and depend on
      nothing, and every programmed prefix chain is deleted. */
  lemma EmptySnapshot(cfg: Naming, programmed: set<Chain>)
    ensures CalculateUpdate(cfg, programmed, []) == ChainUpdate(
      programmed,
      map[Root(To) := {}, Root(From) := {}],
      map[Root(To) := [DropUnknown], Root(From) := [DropUnknown]],
      {})
  {
    var u := CalculateUpdate(cfg, programmed, []);
    assert Dedup([]) == [] && Keys(cfg.ifacePrefix, []) == [];
    assert PrefixChars(cfg.ifacePrefix, []) == {};
    assert NewLeafChains(cfg.ifacePrefix, []) == {};
    assert Body(cfg, [], Root(To)) == [DropUnknown] && Body(cfg, [], Root(From)) == [DropUnknown];
    forall ch ensures ch in u.updates <==> ch == Root(To) || ch == Root(From) {
      UpdateChains(cfg, programmed, [], ch);
      if ch.Root? {
        match ch.d
        case To => assert ch == Root(To);
        case From => assert ch == Root(From);
      }
    }
    assert u.updates == map[Root(To) := [DropUnknown], Root(From) := [DropUnknown]];
    assert Targets([DropUnknown]) == {};
    assert u.deps.Keys == u.updates.Keys;
    assert u.deps == map[Root(To) := {}, Root(From) := {}];
  }

  lemma KeyAfterTap(prefix: string, x: string)
    requires prefix == "tap" && |x| > 3 && x[..3] == "tap"
    ensures KeyOf(prefix, x) == Char(x[3])
  {
  }

  /** The tree-building snapshot: interfaces `tapa1`, `tapa2`, `tapa3`,
      `tapb1`, `tapb20123456789012345` and `tapc`, keyed by their fourth
      character. */
  lemma TreeKeys(prefix: string, ifaces: seq<string>)
    requires prefix == "tap"
    requires ifaces == ["tapa1", "tapa2", "tapa3", "tapb1", "tapb20123456789012345", "tapc"]
    ensures KeyOf(prefix, ifaces[0]) == Char('a') && KeyOf(prefix, ifaces[1]) == Char('a')
    ensures KeyOf(prefix, ifaces[2]) == Char('a') && KeyOf(prefix, ifaces[3]) == Char('b')
    ensures KeyOf(prefix, ifaces[4]) == Char('b') && KeyOf(prefix, ifaces[5]) == Char('c')
  {
    KeyAfterTap(prefix, ifaces[0]);
    KeyAfterTap(prefix, ifaces[1]);
    KeyAfterTap(prefix, ifaces[2]);
    KeyAfterTap(prefix, ifaces[3]);
    assert ifaces[4][..3] == "tap";
    KeyAfterTap(prefix, ifaces[4]);
    KeyAfterTap(prefix, ifaces[5]);
  }

  /** In that snapshot exactly `a` and `b` have prefix chains. */
  lemma TreeChars(prefix: string, ifaces: seq<string>, c: char)
    requires prefix == "tap"
    requires ifaces == ["tapa1", "tapa2", "tapa3", "tapb1", "tapb20123456789012345", "tapc"]
    ensures c in PrefixChars(prefix, Dedup(ifaces)) <==> c == 'a' || c == 'b'
  {
    var xs := Dedup(ifaces);
    TreeKeys(prefix, ifaces);
    PrefixCharsIff(prefix, xs, c);
    if c == 'a' {
      assert ifaces[0] in xs && ifaces[1] in xs && ifaces[0][4] != ifaces[1][4];
    } else if c == 'b' {
      assert ifaces[3] in xs && ifaces[4] in xs && |ifaces[3]| != |ifaces[4]|;
    } else {
      forall x | x in xs && KeyOf(prefix, x) == Char(c) ensures x == ifaces[5] {
        assert x in ifaces;
        var i := IndexOf(ifaces, x);
        assert i == 5;
      }
    }
  }

  /** The tree-building expectation on prefix chains: with `felix-FROM-EP-PFX-a`
      and `felix-FROM-EP-PFX-z` programmed, the chains for `a` and `b` are
      built and only `felix-FROM-EP-PFX-z` is deleted. */
  lemma TreeBuildingChains(cfg: Naming, ifaces: seq<string>)
    requires cfg.ifacePrefix == "tap"
    requires ifaces == ["tapa1", "tapa2", "tapa3", "tapb1", "tapb20123456789012345", "tapc"]
    ensures var u := CalculateUpdate(cfg, {Leaf(From, 'a'), Leaf(From, 'z')}, ifaces);
      u.toDelete == {Leaf(From, 'z')} &&
      u.newLeafChains == {Leaf(To, 'a'), Leaf(To, 'b'), Leaf(From, 'a'), Leaf(From, 'b')}
  {
    var programmed := {Leaf(From, 'a'), Leaf(From, 'z')};
    var u := CalculateUpdate(cfg, programmed, ifaces);
    forall ch ensures (ch in u.toDelete <==> ch == Leaf(From, 'z')) &&
      (ch in u.newLeafChains <==> ch in {Leaf(To, 'a'), Leaf(To, 'b'), Leaf(From, 'a'), Leaf(From, 'b')})
    {
      UpdateChains(cfg, programmed, ifaces, ch);
      if ch.Leaf? { TreeChars(cfg.ifacePrefix, ifaces, ch.c); }
      TreeChars(cfg.ifacePrefix, ifaces, 'z');
      TreeChars(cfg.ifacePrefix, ifaces, 'a');
    }
  }

  /** The other direction. */
  function Flip(d: Direction): Direction
  {
    if d == To then From else To
  }

  /** The root-chain dependencies the tree-building expectation records: the
      prefix chains of the OTHER direction, and the endpoint chains of its
      own direction that sit behind no prefix chain. */
  function AsWrittenRootDeps(prefix: string, xs: seq<string>, d: Direction): set<Chain>
  {
    (set c | c in PrefixChars(prefix, xs) :: Leaf(Flip(d), c)) +
    (set x | x in xs && !Grouped(prefix, xs, x) :: Endpoint(d, x))
  }

  /** In the tree-building snapshot, an interface is behind a prefix chain
      exactly when it is not `tapc`. */
  lemma TreeGrouped(prefix: string, ifaces: seq<string>, x: string)
    requires prefix == "tap"
    requires ifaces == ["tapa1", "tapa2", "tapa3", "tapb1", "tapb20123456789012345", "tapc"]
    requires x in ifaces
    ensures Grouped(prefix, Dedup(ifaces), x) <==> x != "tapc"
  {
    var xs := Dedup(ifaces);
    TreeKeys(prefix, ifaces);
    var i := IndexOf(ifaces, x);
    var k := KeyOf(prefix, x);
    assert k.Char?;
    TreeChars(prefix, ifaces, k.c);
    if k.c in PrefixChars(prefix, xs) {
      var k' :| k' in Keys(prefix, xs) && k'.Char? && |Bucket(prefix, xs, k')| >= 2 && k'.c == k.c;
      assert k' == k;
    }
    if x in xs && Grouped(prefix, xs, x) {
      GroupedHasPrefixChain(prefix, xs, x);
    }
  }

  /** The recorded expectation, `felix-TO-ENDPOINT` depending on
      `felix-FROM-EP-PFX-a`, `felix-FROM-EP-PFX-b` and `felix-to-c`, is what
      the swapped rule gives. */
  lemma TreeAsWrittenRootDeps(prefix: string, ifaces: seq<string>)
    requires prefix == "tap"
    requires ifaces == ["tapa1", "tapa2", "tapa3", "tapb1", "tapb20123456789012345", "tapc"]
    ensures AsWrittenRootDeps(prefix, Dedup(ifaces), To) ==
      {Leaf(From, 'a'), Leaf(From, 'b'), Endpoint(To, "tapc")}
  {
    var xs := Dedup(ifaces);
    var w := AsWrittenRootDeps(prefix, xs, To);
    assert "tapc" in xs by { assert ifaces[5] == "tapc"; }
    forall ch ensures ch in w <==> ch in {Leaf(From, 'a'), Leaf(From, 'b'), Endpoint(To, "tapc")} {
      if ch.Leaf? {
        TreeChars(prefix, ifaces, ch.c);
      } else if ch.Endpoint? && ch.iface in ifaces {
        TreeGrouped(prefix, ifaces, ch.iface);
      }
    }
  }

  /** Yet the TO root's own goto to `felix-TO-EP-PFX-a` is missing from the
      recorded dependencies, and the computed ones hold that chain and not
      `felix-FROM-EP-PFX-a`. */
  lemma TreeRootDepsAsWritten(cfg: Naming, ifaces: seq<string>)
    requires cfg.ifacePrefix == "tap"
    requires ifaces == ["tapa1", "tapa2", "tapa3", "tapb1", "tapb20123456789012345", "tapc"]
    ensures var u := CalculateUpdate(cfg, {Leaf(From, 'a'), Leaf(From, 'z')}, ifaces);
      Root(To) in u.deps &&
      Leaf(To, 'a') in Targets(Body(cfg, Dedup(ifaces), Root(To))) &&
      Leaf(To, 'a') in u.deps[Root(To)] &&
      Leaf(To, 'a') !in AsWrittenRootDeps(cfg.ifacePrefix, Dedup(ifaces), To) &&
      Leaf(From, 'a') in AsWrittenRootDeps(cfg.ifacePrefix, Dedup(ifaces), To) &&
      Leaf(From, 'a') !in u.deps[Root(To)]
  {
    var xs := Dedup(ifaces);
    var programmed := {Leaf(From, 'a'), Leaf(From, 'z')};
    TreeAsWrittenRootDeps(cfg.ifacePrefix, ifaces);
    TreeChars(cfg.ifacePrefix, ifaces, 'a');
    RootTargetsLeaf(cfg, To, xs, Leaf(To, 'a'));
    RootDeps(cfg, programmed, ifaces, To, Leaf(To, 'a'));
    RootDeps(cfg, programmed, ifaces, To, Leaf(From, 'a'));
  }

  // The iptables text of a rule.

  /** `--append <chain> --out-interface <iface> --goto <target>` (the TO
      direction matches the outgoing interface, FROM the incoming one), and
      the final `--jump DROP` with its comment. */
  function RenderRule(cfg: Naming, ch: Chain, r: Rule): (line: string)
    ensures StartsWith(line, "--append " + ChainName(cfg, ch) + " ")
  {
    var head := "--append " + ChainName(cfg, ch) + " ";
    var tail := match r
      case Goto(m, t) =>
        (if ch.d == To then "--out-interface " else "--in-interface ") +
        (match m case Exact(n) => n case Wildcard(p) => IfaceMatch(p)) +
        " --goto " + ChainName(cfg, t)
      case DropUnknown =>
        "--jump DROP -m comment --comment \"" + (if ch.d == To then "To" else "From") + " unknown endpoint\"";
    assert StartsWith(head + tail, head);
    head + tail
  }

  /** The rendered body of a written chain. */
  function RenderBody(cfg: Naming, ch: Chain, body: seq<Rule>): (lines: seq<string>)
    ensures |lines| == |body|
    ensures forall j :: 0 <= j < |body| ==> lines[j] == RenderRule(cfg, ch, body[j])
  {
    seq(|body|, j requires 0 <= j < |body| => RenderRule(cfg, ch, body[j]))
  }

  /** Lines of the expected bodies: a wildcard goto to a prefix chain. */
  lemma RenderWildcardExample(cfg: Naming)
    requires cfg.ifacePrefix == "tap"
    ensures RenderRule(cfg, Root(To), Goto(Wildcard("tapa"), Leaf(To, 'a'))) ==
      "--append felix-TO-ENDPOINT " + "--out-interface tapa+ --goto felix-TO-EP-PFX-a"
  {
    RootToHead(cfg);
    WildcardTail(cfg);
  }

  lemma RootToHead(cfg: Naming)
    ensures "--append " + ChainName(cfg, Root(To)) + " " == "--append felix-TO-ENDPOINT "
  {
    assert ChainName(cfg, Root(To)) == "felix-TO-ENDPOINT";
  }

  lemma WildcardTail(cfg: Naming)
    ensures "--out-interface " + IfaceMatch("tapa") + " --goto " + ChainName(cfg, Leaf(To, 'a')) ==
      "--out-interface tapa+ --goto felix-TO-EP-PFX-a"
  {
    assert ChainName(cfg, Leaf(To, 'a')) == "felix-TO-EP-PFX-a";
    assert IfaceMatch("tapa") == "tapa+";
    assert "--out-interface " + "tapa+" + " --goto " == "--out-interface tapa+ --goto ";
  }

  /** The drop closing the FROM root. */
  lemma RenderRootDropExample(cfg: Naming)
    ensures RenderRule(cfg, Root(From), DropUnknown) ==
      "--append felix-FROM-ENDPOINT " + "--jump DROP -m comment --comment \"From unknown endpoint\""
  {
    assert "--append " + ChainName(cfg, Root(From)) + " " == "--append felix-FROM-ENDPOINT ";
    assert "--jump DROP -m comment --comment \"" + "From" + " unknown endpoint\"" ==
      "--jump DROP -m comment --comment \"From unknown endpoint\"";
  }

  /** The drop closing a TO prefix chain. */
  lemma RenderPrefixDropExample(cfg: Naming)
    ensures RenderRule(cfg, Leaf(To, 'a'), DropUnknown) ==
      "--append felix-TO-EP-PFX-a " + "--jump DROP -m comment --comment \"To unknown endpoint\""
  {
    LeafToHead(cfg);
    assert "--jump DROP -m comment --comment \"" + "To" + " unknown endpoint\"" ==
      "--jump DROP -m comment --comment \"To unknown endpoint\"";
  }

  lemma LeafToHead(cfg: Naming)
    ensures "--append " + ChainName(cfg, Leaf(To, 'a')) + " " == "--append felix-TO-EP-PFX-a "
  {
    assert ChainName(cfg, Leaf(To, 'a')) == "felix-TO-EP-PFX-a";
  }

  lemma SuffixOfTapc(cfg: Naming)
    requires cfg.ifacePrefix == "tap"
    ensures InterfaceToSuffix(cfg, "tapc") == "c"
  {
    assert OccursAt("tapc", "tap", 0);
    assert ReplaceFirst("tapc", "tap", "") == "c";
  }

  /** An exact goto straight to an endpoint chain. */
  lemma RenderEndpointExample(cfg: Naming)
    requires cfg.ifacePrefix == "tap"
    ensures RenderRule(cfg, Root(To), Goto(Exact("tapc"), Endpoint(To, "tapc"))) ==
      "--append felix-TO-ENDPOINT " + "--out-interface tapc --goto felix-to-c"
  {
    SuffixOfTapc(cfg);
    assert "--append " + ChainName(cfg, Root(To)) + " " == "--append felix-TO-ENDPOINT ";
    assert "--out-interface " + "tapc" + " --goto " + ChainName(cfg, Endpoint(To, "tapc")) ==
      "--out-interface tapc --goto felix-to-c";
  }

  // The DispatchChains actor.

  /** The chains route exactly the interfaces of `ifaces`, in both
      directions, to their endpoint chains. */
  ghost predicate RoutesExactly(u: ChainUpdate, ifaces: set<string>)
  {
    forall d, iface :: Route(u.updates, d, iface) == if iface in ifaces then ToChain(Endpoint(d, iface)) else Dropped
  }

  /** `u` is `_calculate_update` of the interfaces `ifaces`, listed in some
      order, against the programmed prefix chains. */
  ghost predicate IsRound(u: ChainUpdate, cfg: Naming, programmed: set<Chain>, ifaces: set<string>)
  {
    exists order: seq<string> :: (forall x :: x in order <==> x in ifaces) && u == CalculateUpdate(cfg, programmed, order)
  }

  /** The interfaces of the set in some order (Python iterates a set in an
      order of its own). */
  method ListSet(s: set<string>) returns (r: seq<string>)
    ensures forall x :: x in r <==> x in s
    ensures NoDup(r)
  {
    r := [];
    var rest := s;
    while rest != {}
      invariant forall x :: x in s <==> x in r || x in rest
      invariant forall x :: x in r ==> x !in rest
      invariant NoDup(r)
      decreases |rest|
    {
      var x :| x in rest;
      r := r + [x];
      rest := rest - {x};
    }
  }

  /** The dispatch-chain actor: the local interfaces, the prefix chains it
      has programmed, and the record of every `rewrite_chains` /
      `delete_chains` round the iptables updater applied. The updater is
      outside the model: whether it applies a round is the `applied`
      parameter of each message. A round it refuses raises out of the
      handler: the new interface set stays, but neither the round nor its
      prefix chains are recorded, so the last applied round stays the
      committed one. */
  class DispatchChains {
    const cfg: Naming
    var ifaces: set<string>
    var programmedLeafChains: set<Chain>
    var rewrites: seq<ChainUpdate>

    /** The programmed prefix chains are the ones the last applied round built. */
    ghost predicate Valid()
      reads this
    {
      |rewrites| >= 1 ==> programmedLeafChains == rewrites[|rewrites| - 1].newLeafChains
    }

    /** The last applied round routes exactly the current interfaces. */
    ghost predicate Synced()
      reads this
    {
      |rewrites| >= 1 ==> RoutesExactly(rewrites[|rewrites| - 1], ifaces)
    }

    constructor(cfg: Naming)
      ensures this.cfg == cfg && ifaces == {} && programmedLeafChains == {} && rewrites == []
      ensures Valid() && Synced()
    {
      this.cfg := cfg;
      ifaces := {};
      programmedLeafChains := {};
      rewrites := [];
    }

    /** `_update_chains`: one round computed from the current interfaces,
        recorded (with its new prefix chains) only when the updater applies it. */
    method UpdateChains(applied: bool)
      modifies this
      ensures ifaces == old(ifaces)
      ensures applied ==>
        |rewrites| == |old(rewrites)| + 1 && rewrites[..|old(rewrites)|] == old(rewrites) &&
        IsRound(rewrites[|rewrites| - 1], cfg, old(programmedLeafChains), ifaces) &&
        programmedLeafChains == rewrites[|rewrites| - 1].newLeafChains
      ensures !applied ==> rewrites == old(rewrites) && programmedLeafChains == old(programmedLeafChains)
      ensures applied ==> Valid() && Synced()
      ensures old(Valid()) ==> Valid()
    {
      var order := ListSet(ifaces);
      var u := CalculateUpdate(cfg, programmedLeafChains, order);
      forall d, iface ensures Route(u.updates, d, iface) == if iface in ifaces then ToChain(Endpoint(d, iface)) else Dropped {
        RoutingCorrect(cfg, programmedLeafChains, order, d, iface);
      }
      if applied {
        rewrites := rewrites + [u];
        programmedLeafChains := u.newLeafChains;
      }
    }

    /** `apply_snapshot`: replace the interfaces and rewrite; a snapshot
        naming exactly the current interfaces is never applied. */
    method ApplySnapshot(snapshot: seq<string>, applied: bool)
      modifies this
      ensures forall x :: x in ifaces <==> x in snapshot
      ensures ifaces == old(ifaces) || !applied ==>
        rewrites == old(rewrites) && programmedLeafChains == old(programmedLeafChains)
      ensures ifaces != old(ifaces) && applied ==>
        |rewrites| == |old(rewrites)| + 1 && rewrites[..|old(rewrites)|] == old(rewrites) &&
        IsRound(rewrites[|rewrites| - 1], cfg, old(programmedLeafChains), ifaces)
      ensures old(Valid()) ==> Valid()
      ensures old(Synced()) && ifaces == old(ifaces) ==> Synced()
      ensures ifaces != old(ifaces) && applied ==> Valid() && Synced()
    {
      var target := set x | x in snapshot;
      if target != ifaces {
        ifaces := target;
        UpdateChains(applied);
      }
    }

    /** `on_endpoint_added`: a new interface triggers one rewrite; a known one
        changes nothing. */
    method OnEndpointAdded(iface: string, applied: bool)
      modifies this
      ensures ifaces == old(ifaces) + {iface}
      ensures iface in old(ifaces) || !applied ==>
        rewrites == old(rewrites) && programmedLeafChains == old(programmedLeafChains)
      ensures iface !in old(ifaces) && applied ==>
        |rewrites| == |old(rewrites)| + 1 && rewrites[..|old(rewrites)|] == old(rewrites) &&
        IsRound(rewrites[|rewrites| - 1], cfg, old(programmedLeafChains), ifaces)
      ensures old(Valid()) ==> Valid()
      ensures old(Synced()) && iface in old(ifaces) ==> Synced()
      ensures iface !in old(ifaces) && applied ==> Valid() && Synced()
    {
      if iface !in ifaces {
        ifaces := ifaces + {iface};
        UpdateChains(applied);
      }
    }

    /** `on_endpoint_removed`: removing a present interface triggers one
        rewrite; an absent one changes nothing. */
    method OnEndpointRemoved(iface: string, applied: bool)
      modifies this
      ensures ifaces == old(ifaces) - {iface}
      ensures iface !in old(ifaces) || !applied ==>
        rewrites == old(rewrites) && programmedLeafChains == old(programmedLeafChains)
      ensures iface in old(ifaces) && applied ==>
        |rewrites| == |old(rewrites)| + 1 && rewrites[..|old(rewrites)|] == old(rewrites) &&
        IsRound(rewrites[|rewrites| - 1], cfg, old(programmedLeafChains), ifaces)
      ensures old(Valid()) ==> Valid()
      ensures old(Synced()) && iface !in old(ifaces) ==> Synced()
      ensures iface in old(ifaces) && applied ==> Valid() && Synced()
    {
      if iface in ifaces {
        ifaces := ifaces - {iface};
        UpdateChains(applied);
      }
    }
  }
}
