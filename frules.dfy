/** Felix chain-name constants, interface-name shortening and the multiport
    split (calico/felix/frules.py; `uniquely_shorten` as its table of
    expectations in calico/felix/test/test_futils.py). */
module Frules {
  import opened Wrappers
  import opened StrUtil

  const FELIX_PREFIX: string := "felix-"

  /** Most entries one "multiport" match may hold; a range counts twice. */
  const MAX_MULTIPORT_ENTRIES: nat := 15

  const CHAIN_TO_ENDPOINT: string := FELIX_PREFIX + "TO-ENDPOINT"
  const CHAIN_FROM_ENDPOINT: string := FELIX_PREFIX + "FROM-ENDPOINT"
  /** Stems of the per-character prefix chains (named "leaf" in the source). */
  const CHAIN_TO_LEAF: string := FELIX_PREFIX + "TO-EP-PFX"
  const CHAIN_FROM_LEAF: string := FELIX_PREFIX + "FROM-EP-PFX"
  /** Stems of the per-endpoint chains (named "prefix" in the source). */
  const CHAIN_TO_PREFIX: string := FELIX_PREFIX + "to-"
  const CHAIN_FROM_PREFIX: string := FELIX_PREFIX + "from-"

  /** Longest suffix an endpoint chain name carries. */
  const SUFFIX_LIMIT: nat := 16

  predicate IsLowerHex(s: string)
  {
    forall i :: 0 <= i < |s| ==> '0' <= s[i] <= '9' || 'a' <= s[i] <= 'f'
  }

  function HexZeros(n: nat): (r: string)
    ensures |r| == n && IsLowerHex(r)
  {
    if n == 0 then "" else "0" + HexZeros(n - 1)
  }

  /** The hash behind `uniquely_shorten`: for an input and a number of
      digits it yields that many lowercase hex digits. Which hash it is
      is not modelled; every property below holds for any such function. */
  type Digest = f: (string, nat) -> string | forall s, n :: |f(s, n)| == n && IsLowerHex(f(s, n))
    witness (s: string, n: nat) => HexZeros(n)

  /** The inputs `uniquely_shorten` replaces by a hash. */
  predicate NeedsHash(s: string, limit: nat)
  {
    |s| > limit || (|s| == limit && StartsWith(s, "_"))
  }

  /** `futils.uniquely_shorten(s, limit)`. */
  function UniquelyShorten(s: string, limit: nat, digest: Digest): (r: string)
    requires limit >= 1
    ensures |r| <= limit
    ensures !NeedsHash(s, limit) ==> r == s
    ensures NeedsHash(s, limit) ==> |r| == limit && r[0] == '_' && IsLowerHex(r[1..])
  {
    if NeedsHash(s, limit) then "_" + digest(s, limit - 1) else s
  }

  /** Two inputs can only shorten to the same string when both were
      hashed: kept names and hashed names never collide. */
  lemma ShortenCollisionsOnlyFromDigest(s: string, t: string, limit: nat, digest: Digest)
    requires limit >= 1
    requires s != t
    requires UniquelyShorten(s, limit, digest) == UniquelyShorten(t, limit, digest)
    ensures NeedsHash(s, limit) && NeedsHash(t, limit)
  {
  }

  /** The rows of the shortening table whose outputs do not depend on the
      hash, and the shape of the others. */
  lemma ShortenTable(digest: Digest)
    ensures UniquelyShorten("foo", 10, digest) == "foo"
    ensures UniquelyShorten("foobarbaz1", 10, digest) == "foobarbaz1"
    ensures UniquelyShorten("_foobar", 10, digest) == "_foobar"
    ensures UniquelyShorten("foobarbaz12", 10, digest) == "_" + digest("foobarbaz12", 9)
    ensures UniquelyShorten("foobarbaz12", 9, digest) == "_" + digest("foobarbaz12", 8)
    ensures UniquelyShorten("_foobar", 7, digest) == "_" + digest("_foobar", 6)
    ensures UniquelyShorten("_78c38617f", 10, digest) == "_" + digest("_78c38617f", 9)
  {
    assert StartsWith("_foobar", "_");
    assert StartsWith("_78c38617f", "_");
  }

  /** The configuration `interface_to_suffix` reads. */
  datatype Naming = Naming(ifacePrefix: string, digest: Digest)

  /** `interface_to_suffix`: the first occurrence of the interface prefix,
      wherever it is, is deleted, and the rest is shortened to 16. */
  function InterfaceToSuffix(cfg: Naming, iface: string): (r: string)
    ensures |r| <= SUFFIX_LIMIT
    ensures FindFirst(iface, cfg.ifacePrefix).Some? ==>
      var k := FindFirst(iface, cfg.ifacePrefix).value;
      var stripped := iface[..k] + iface[k + |cfg.ifacePrefix|..];
      (|stripped| < SUFFIX_LIMIT ==> r == stripped)
    ensures FindFirst(iface, cfg.ifacePrefix).None? && |iface| < SUFFIX_LIMIT ==> r == iface
  {
    UniquelyShorten(ReplaceFirst(iface, cfg.ifacePrefix, ""), SUFFIX_LIMIT, cfg.digest)
  }

  /** Only the first occurrence is removed, and not only at the start. */
  lemma InterfaceToSuffixFirstOccurrence(digest: Digest)
    ensures InterfaceToSuffix(Naming("tap", digest), "tapxtap1") == "xtap1"
    ensures InterfaceToSuffix(Naming("tap", digest), "xtap1") == "x1"
  {
    LeadingTapRemoved(digest);
    InnerTapRemoved(digest);
  }

  lemma LeadingTapRemoved(digest: Digest)
    ensures InterfaceToSuffix(Naming("tap", digest), "tapxtap1") == "xtap1"
  {
    assert "tapxtap1"[..3] == "tap";
    assert FindFirst("tapxtap1", "tap") == Some(0);
    assert ReplaceFirst("tapxtap1", "tap", "") == "xtap1";
  }

  lemma InnerTapRemoved(digest: Digest)
    ensures InterfaceToSuffix(Naming("tap", digest), "xtap1") == "x1"
  {
    assert "xtap1"[..3][0] == 'x';
    assert "xtap1"[1..] == "tap1" && "tap1"[..3] == "tap";
    assert FindFirst("tap1", "tap") == Some(0);
    assert FindFirst("xtap1", "tap") == Some(1);
    assert ReplaceFirst("xtap1", "tap", "") == "x1";
  }

  /** The glob matching every interface (`iface_match`). */
  function IfaceMatch(ifacePrefix: string): (r: string)
    ensures StartsWith(r, ifacePrefix) && |r| == |ifacePrefix| + 1 && r[|r| - 1] == '+'
  {
    ifacePrefix + "+"
  }

  // Multiport splitting.

  /** A port as given to a rule: a number or a "min:max" text. */
  datatype PortEntry = PortNum(n: int) | PortText(text: string)

  function RenderPort(p: PortEntry): string
  {
    match p
    case PortNum(n) => IntToString(n)
    case PortText(t) => t
  }

  /** A range uses two of the multiport match's entries. */
  function EntryWeight(p: string): nat
  {
    if ':' in p then 2 else 1
  }

  function Weight(ps: seq<string>): nat
  {
    if ps == [] then 0 else EntryWeight(ps[0]) + Weight(ps[1..])
  }

  lemma {:induction false} WeightAppend(a: seq<string>, b: seq<string>)
    ensures Weight(a + b) == Weight(a) + Weight(b)
  {
    if a == [] {
      assert a + b == b;
    } else {
      assert (a + b)[0] == a[0] && (a + b)[1..] == a[1..] + b;
      WeightAppend(a[1..], b);
    }
  }

  /** A list without ranges weighs one per entry. */
  lemma {:induction false} WeightPlain(ps: seq<string>)
    requires forall i :: 0 <= i < |ps| ==> ':' !in ps[i]
    ensures Weight(ps) == |ps|
  {
    if ps != [] {
      WeightPlain(ps[1..]);
    }
  }

  lemma WeightPrefixMonotone(ps: seq<string>, i: nat, j: nat)
    ensures i <= j <= |ps| ==> Weight(ps[..i]) <= Weight(ps[..j])
  {
    if i <= j <= |ps| {
      assert ps[..j] == ps[..i] + ps[i..j];
      WeightAppend(ps[..i], ps[i..j]);
    }
  }

  /** Length of the longest prefix of `ps` whose weight fits in `budget`. */
  function FitCount(ps: seq<string>, budget: nat): (n: nat)
    ensures n <= |ps| && Weight(ps[..n]) <= budget
    ensures n < |ps| ==> Weight(ps[..n + 1]) > budget
    ensures |ps| > 0 && budget >= 2 ==> n >= 1
  {
    if ps == [] || EntryWeight(ps[0]) > budget then
      assert ps != [] ==> ps[..1] == [ps[0]] && Weight(ps[..1]) == EntryWeight(ps[0]) + Weight([]);
      0
    else
      var m := FitCount(ps[1..], budget - EntryWeight(ps[0]));
      assert ps[..m + 1] == [ps[0]] + ps[1..][..m];
      assert m < |ps[1..]| ==> ps[..m + 2] == [ps[0]] + ps[1..][..m + 1];
      m + 1
  }

  lemma FitCountAll(ps: seq<string>, budget: nat)
    requires Weight(ps) <= budget
    ensures FitCount(ps, budget) == |ps|
  {
    assert ps[..|ps|] == ps;
    var n := FitCount(ps, budget);
    WeightPrefixMonotone(ps, n + 1, |ps|);
  }

  lemma FitCountAt(ps: seq<string>, budget: nat, k: nat)
    requires k < |ps| && Weight(ps[..k]) <= budget < Weight(ps[..k + 1])
    ensures FitCount(ps, budget) == k
  {
    var n := FitCount(ps, budget);
    WeightPrefixMonotone(ps, n + 1, k);
    WeightPrefixMonotone(ps, k + 1, n);
  }

  /** The port lists split greedily into multiport-sized chunks. */
  function Chunks(ps: seq<string>): (r: seq<seq<string>>)
    ensures forall i :: 0 <= i < |r| ==> r[i] != [] && Weight(r[i]) <= MAX_MULTIPORT_ENTRIES
    decreases |ps|
  {
    if ps == [] then []
    else
      var n := FitCount(ps, MAX_MULTIPORT_ENTRIES);
      [ps[..n]] + Chunks(ps[n..])
  }

  lemma ChunksOne(ps: seq<string>)
    requires ps != [] && Weight(ps) <= MAX_MULTIPORT_ENTRIES
    ensures Chunks(ps) == [ps]
  {
    FitCountAll(ps, MAX_MULTIPORT_ENTRIES);
    assert ps[..|ps|] == ps && ps[|ps|..] == [];
  }

  lemma ChunksStep(ps: seq<string>, k: nat)
    requires k < |ps| && Weight(ps[..k]) <= MAX_MULTIPORT_ENTRIES < Weight(ps[..k + 1])
    ensures Chunks(ps) == [ps[..k]] + Chunks(ps[k..])
  {
    FitCountAt(ps, MAX_MULTIPORT_ENTRIES, k);
  }

  function Concat(r: seq<seq<string>>): seq<string>
  {
    if r == [] then [] else r[0] + Concat(r[1..])
  }

  /** Splitting loses and reorders nothing, and each chunk is as full as
      the next entry allows. */
  lemma ChunksPreserveAndFill(ps: seq<string>)
    ensures Concat(Chunks(ps)) == ps
    ensures forall i :: 0 <= i < |Chunks(ps)| - 1 ==>
      Weight(Chunks(ps)[i] + [Chunks(ps)[i + 1][0]]) > MAX_MULTIPORT_ENTRIES
  {
    ChunksPreserve(ps);
    ChunksFill(ps);
  }

  lemma {:induction false} ChunksPreserve(ps: seq<string>)
    ensures Concat(Chunks(ps)) == ps
    decreases |ps|
  {
    if ps != [] {
      var n := FitCount(ps, MAX_MULTIPORT_ENTRIES);
      ChunksPreserve(ps[n..]);
      assert ps[..n] + ps[n..] == ps;
    }
  }

  lemma {:induction false} ChunksFill(ps: seq<string>)
    ensures forall i :: 0 <= i < |Chunks(ps)| - 1 ==>
      Weight(Chunks(ps)[i] + [Chunks(ps)[i + 1][0]]) > MAX_MULTIPORT_ENTRIES
    decreases |ps|
  {
    if ps != [] {
      var n := FitCount(ps, MAX_MULTIPORT_ENTRIES);
      var rest := Chunks(ps[n..]);
      ChunksFill(ps[n..]);
      var r := Chunks(ps);
      assert r == [ps[..n]] + rest;
      if |r| > 1 {
        assert r[1][0] == ps[n];
        assert ps[..n + 1] == ps[..n] + [ps[n]];
      }
      forall i | 1 <= i < |r| - 1
        ensures Weight(r[i] + [r[i + 1][0]]) > MAX_MULTIPORT_ENTRIES
      {
        assert r[i] == rest[i - 1] && r[i + 1] == rest[i];
      }
    }
  }

  /** `_split_port_lists`: ports rendered as strings and chunked. */
  function SplitPortLists(ports: seq<PortEntry>): (r: seq<seq<string>>)
    ensures forall i :: 0 <= i < |r| ==> r[i] != [] && Weight(r[i]) <= MAX_MULTIPORT_ENTRIES
  {
    Chunks(RenderPorts(ports))
  }

  function RenderPorts(ports: seq<PortEntry>): (r: seq<string>)
    ensures |r| == |ports| && forall i :: 0 <= i < |ports| ==> r[i] == RenderPort(ports[i])
  {
    seq(|ports|, i requires 0 <= i < |ports| => RenderPort(ports[i]))
  }

  /** A number renders without a ':', so it weighs one entry. */
  lemma NumberHasNoColon(n: int)
    ensures ':' !in RenderPort(PortNum(n))
  {
    var m: nat := if n >= 0 then n else -n;
    var d := NatToString(m);
    var r := RenderPort(PortNum(n));
    NatToStringDigits(m);
    forall i | 0 <= i < |r|
      ensures r[i] != ':'
    {
      if n >= 0 {
        assert IsDigit(d[i]);
      } else if i > 0 {
        assert r[i] == d[i - 1] && IsDigit(d[i - 1]);
      }
    }
  }

  /** The entries other than `exempt` are single port numbers. */
  predicate NumbersExcept(ports: seq<PortEntry>, exempt: int)
  {
    forall i :: 0 <= i < |ports| && i != exempt ==> ports[i].PortNum?
  }

  lemma RenderedNumbersPlain(ports: seq<PortEntry>, exempt: int)
    requires NumbersExcept(ports, exempt)
    ensures forall i :: 0 <= i < |ports| && i != exempt ==> ':' !in RenderPorts(ports)[i]
  {
    forall i | 0 <= i < |ports| && i != exempt
      ensures ':' !in RenderPorts(ports)[i]
    {
      NumberHasNoColon(ports[i].n);
    }
  }

  // The three cases of test_split_port_lists, each for every list of its
  // shape rather than only for the test's numbers.

  /** Up to 15 single ports stay one list (the test: 1..15). */
  lemma SplitFewNumbers(ports: seq<PortEntry>)
    requires 1 <= |ports| <= MAX_MULTIPORT_ENTRIES && NumbersExcept(ports, -1)
    ensures SplitPortLists(ports) == [RenderPorts(ports)]
  {
    var r := RenderPorts(ports);
    RenderedNumbersPlain(ports, -1);
    WeightPlain(r);
    ChunksOne(r);
  }

  /** Sixteen single ports split into the first 15 and the last one (the
      test: 1..16 gives 1..15 and 16). */
  lemma SplitSixteenNumbers(ports: seq<PortEntry>)
    requires |ports| == MAX_MULTIPORT_ENTRIES + 1 && NumbersExcept(ports, -1)
    ensures SplitPortLists(ports) == [RenderPorts(ports)[..15], RenderPorts(ports)[15..]]
  {
    var r := RenderPorts(ports);
    RenderedNumbersPlain(ports, -1);
    WeightPlain(r[..15]);
    WeightPlain(r[..16]);
    WeightPlain(r[15..]);
    ChunksStep(r, 15);
    ChunksOne(r[15..]);
  }

  /** Sixteen entries whose second is a range and the rest single ports:
      the range counts two, so the first list stops after 14 entries and
      the last two form the second (the test: 1, "2:3", 4..17 gives
      1, "2:3", 4..15 and 16, 17). */
  lemma SplitRangeSecond(ports: seq<PortEntry>)
    requires |ports| == 16 && ports[1].PortText? && ':' in ports[1].text && NumbersExcept(ports, 1)
    ensures SplitPortLists(ports) == [RenderPorts(ports)[..14], RenderPorts(ports)[14..]]
  {
    var r := RenderPorts(ports);
    RenderedNumbersPlain(ports, 1);
    assert EntryWeight(r[1]) == 2;
    WeightPlain(r[..1]);
    WeightPlain(r[2..14]);
    WeightPlain(r[2..15]);
    WeightPlain(r[14..]);
    assert Weight([r[1]]) == 2;
    WeightAppend(r[..1], [r[1]]);
    assert r[..1] + [r[1]] == r[..2];
    WeightAppend(r[..2], r[2..14]);
    WeightAppend(r[..2], r[2..15]);
    assert r[..2] + r[2..14] == r[..14] && r[..2] + r[2..15] == r[..15];
    ChunksStep(r, 14);
    ChunksOne(r[14..]);
  }
}
