// `calicoctl checksystem`: kernel module availability, Docker API version
// comparison and the overall verdict.

module CheckSystem {
  import opened Wrappers
  import opened StrUtil

  /** The Docker Remote API versions required without and with libnetwork,
      and the kernel modules calico needs. */
  const DOCKER_VERSION: string := "1.16"
  const DOCKER_LIBNETWORK_VERSION: string := "1.21"
  const REQUIRED_MODULES: seq<string> := ["xt_set", "ip6_tables"]

  // ---------------------------------------------------------------------
  // Kernel modules.

  /** Some line contains `/<module>.ko`. */
  function CheckModuleLines(lines: seq<string>, name: string): (r: bool)
    ensures r <==> exists k :: 0 <= k < |lines| && Contains(lines[k], "/" + name + ".ko")
  {
    if lines == [] then false
    else if Contains(lines[0], "/" + name + ".ko") then true
    else
      var rest := CheckModuleLines(lines[1..], name);
      assert forall k :: 1 <= k < |lines| ==> lines[1..][k - 1] == lines[k];
      rest
  }

  /** A module is available when listed in modules.dep or modules.builtin. */
  predicate ModuleAvailable(available: seq<string>, builtin: seq<string>, name: string)
  {
    CheckModuleLines(available, name) || CheckModuleLines(builtin, name)
  }

  /** How often modules.builtin is opened for the first `n` modules: once at
      the first module missing from modules.dep, and again for every later
      missing module while the lines read so far are empty (an empty list
      is falsy). */
  function BuiltinOpens(available: seq<string>, builtin: seq<string>, modules: seq<string>): (r: nat)
    ensures r <= |modules|
    ensures (forall k :: 0 <= k < |modules| ==> CheckModuleLines(available, modules[k])) ==> r == 0
    decreases |modules|
  {
    if modules == [] then 0
    else
      var before := BuiltinOpens(available, builtin, modules[..|modules| - 1]);
      var missing := !CheckModuleLines(available, modules[|modules| - 1]);
      before + (if missing && (before == 0 || builtin == []) then 1 else 0)
  }

  /** modules.builtin holding any line is opened at most once. */
  lemma {:induction false} BuiltinOpenedOnce(available: seq<string>, builtin: seq<string>, modules: seq<string>)
    requires builtin != []
    ensures BuiltinOpens(available, builtin, modules) <= 1
    decreases |modules|
  {
    if modules != [] {
      BuiltinOpenedOnce(available, builtin, modules[..|modules| - 1]);
    }
  }

  predicate AllAvailable(available: seq<string>, builtin: seq<string>, modules: seq<string>)
  {
    forall k :: 0 <= k < |modules| ==> ModuleAvailable(available, builtin, modules[k])
  }

  /** One more module: the opens count grows as `BuiltinOpens` says and the
      verdict takes in the new module. */
  lemma CheckStep(available: seq<string>, builtin: seq<string>, modules: seq<string>, i: nat)
    requires i < |modules|
    ensures var before := BuiltinOpens(available, builtin, modules[..i]);
      BuiltinOpens(available, builtin, modules[..i + 1])
        == before + (if !CheckModuleLines(available, modules[i]) && (before == 0 || builtin == []) then 1 else 0)
    ensures AllAvailable(available, builtin, modules[..i + 1])
      <==> AllAvailable(available, builtin, modules[..i]) && ModuleAvailable(available, builtin, modules[i])
  {
    assert modules[..i + 1][..i] == modules[..i];
    assert modules[..i + 1][i] == modules[i];
  }

  /** The loop of `_check_modules`. `unameOk` is false when `uname -r`
      fails; the two files' lines are given. Returns the verdict and how
      many times modules.builtin is opened. */
  method CheckModules(unameOk: bool, available: seq<string>, builtin: seq<string>, modules: seq<string>)
    returns (allAvailable: bool, builtinOpens: nat)
    ensures allAvailable <==> unameOk && forall k :: 0 <= k < |modules| ==> ModuleAvailable(available, builtin, modules[k])
    ensures builtinOpens == (if unameOk then BuiltinOpens(available, builtin, modules) else 0)
  {
    if !unameOk {
      return false, 0;
    }
    var builtinLines: seq<string> := [];
    builtinOpens := 0;
    allAvailable := true;
    var i := 0;
    while i < |modules|
      invariant 0 <= i <= |modules|
      invariant allAvailable <==> AllAvailable(available, builtin, modules[..i])
      invariant builtinOpens == BuiltinOpens(available, builtin, modules[..i])
      invariant builtinLines == (if builtinOpens == 0 then [] else builtin)
    {
      CheckStep(available, builtin, modules, i);
      var name := modules[i];
      var moduleAvailable := CheckModuleLines(available, name);
      if !moduleAvailable {
        if builtinLines == [] {
          builtinLines := builtin;
          builtinOpens := builtinOpens + 1;
        }
        var moduleBuiltin := CheckModuleLines(builtinLines, name);
        if !moduleBuiltin {
          allAvailable := false;
        }
      }
      i := i + 1;
    }
    assert modules[..|modules|] == modules;
  }

  // ---------------------------------------------------------------------
  // Version normalisation.

  /** Start of the run of '0' characters at the end of `s`. */
  function ZeroRunStart(s: string): (j: nat)
    ensures j <= |s|
    ensures forall i :: j <= i < |s| ==> s[i] == '0'
    ensures j == 0 || s[j - 1] != '0'
    decreases |s|
  {
    if s != [] && s[|s| - 1] == '0' then ZeroRunStart(s[..|s| - 1]) else |s|
  }

  /** `s` ends with a group `.0+`. */
  predicate EndsWithZeroGroup(s: string)
  {
    var j := ZeroRunStart(s);
    0 < j < |s| && s[j - 1] == '.'
  }

  /** `s` is a concatenation of groups `.0+`. */
  predicate ZeroGroups(u: string)
  {
    u == [] ||
    (u[0] == '.' && u[|u| - 1] == '0'
     && (forall i :: 0 <= i < |u| ==> u[i] == '.' || u[i] == '0')
     && (forall i :: 0 <= i < |u| - 1 ==> !(u[i] == '.' && u[i + 1] == '.')))
  }

  /** `re.sub(r'(\.0+)*$', '', s)`: the trailing `.0+` groups dropped. */
  function TrimZeroGroups(s: string): (r: string)
    ensures |r| <= |s| && r == s[..|r|]
    ensures ZeroGroups(s[|r|..])
    ensures !EndsWithZeroGroup(r)
    decreases |s|
  {
    if EndsWithZeroGroup(s) then
      var j := ZeroRunStart(s);
      var t := s[..j - 1];
      var r := TrimZeroGroups(t);
      assert s[..|r|] == t[..|r|];
      assert s[|r|..] == t[|r|..] + s[j - 1..];
      ZeroGroupsAppend(t[|r|..], s[j - 1..]);
      r
    else
      assert s[|s|..] == [];
      s
  }

  lemma ZeroGroupsAppend(u: string, g: string)
    requires ZeroGroups(u)
    requires |g| >= 2 && g[0] == '.' && forall i :: 1 <= i < |g| ==> g[i] == '0'
    ensures ZeroGroups(u + g)
  {
    var w := u + g;
    assert w[|w| - 1] == '0';
    forall i | 0 <= i < |w| - 1
      ensures !(w[i] == '.' && w[i + 1] == '.')
    {
      if i + 1 < |u| {
        assert w[i] == u[i] && w[i + 1] == u[i + 1];
      } else if i + 1 == |u| {
        assert w[i] == u[|u| - 1];
      } else {
        assert w[i + 1] == g[i + 1 - |u|];
      }
    }
  }

  datatype VersionError = NotAnInteger(part: string)

  /** `int()` of every part. */
  function ParseParts(parts: seq<string>): (r: Result<seq<int>, VersionError>)
    ensures r.Ok? ==> |r.value| == |parts|
    ensures r.Ok? ==> forall k :: 0 <= k < |parts| ==> PyInt(parts[k]) == Some(r.value[k])
    ensures r.Err? <==> exists k :: 0 <= k < |parts| && PyInt(parts[k]).None?
  {
    if parts == [] then Ok([])
    else
      var head := PyInt(parts[0]);
      var rest := ParseParts(parts[1..]);
      assert forall k :: 1 <= k < |parts| ==> parts[1..][k - 1] == parts[k];
      if head.None? then Err(NotAnInteger(parts[0]))
      else if rest.Err? then rest
      else Ok([head.value] + rest.value)
  }

  /** `normalize_version`: trailing `.0` groups dropped, then the integer
      value of each dot-separated part; a part that is not an integer
      raises. */
  function NormalizeVersion(version: string): (r: Result<seq<int>, VersionError>)
    ensures r.Ok? ==> |r.value| == |Split(TrimZeroGroups(version), '.')|
  {
    ParseParts(Split(TrimZeroGroups(version), '.'))
  }

  /** A trailing ".0" makes no difference: "1.21.0" and "1.21" normalise
      to the same list. */
  lemma NormalizeIgnoresZeroGroup(v: string)
    ensures NormalizeVersion(v + ".0") == NormalizeVersion(v)
  {
    var s := v + ".0";
    assert s[|s| - 1] == '0';
    assert ZeroRunStart(s[..|s| - 1]) == |s| - 1 by {
      assert s[..|s| - 1] == v + ".";
    }
    assert ZeroRunStart(s) == |v| + 1;
    assert EndsWithZeroGroup(s);
    assert s[..|v|] == v;
  }

  // ---------------------------------------------------------------------
  // Docker API version.

  /** Python 2 `cmp(a, b) < 0` on lists of integers: element by element,
      a proper prefix being smaller. */
  predicate LexLess(a: seq<int>, b: seq<int>)
    decreases |a|
  {
    if a == [] then b != []
    else if b == [] then false
    else a[0] < b[0] || (a[0] == b[0] && LexLess(a[1..], b[1..]))
  }

  lemma {:induction false} LexLessIrreflexive(a: seq<int>)
    ensures !LexLess(a, a)
    decreases |a|
  {
    if a != [] {
      LexLessIrreflexive(a[1..]);
    }
  }

  lemma {:induction false} LexLessTransitive(a: seq<int>, b: seq<int>, c: seq<int>)
    requires LexLess(a, b) && LexLess(b, c)
    ensures LexLess(a, c)
    decreases |a|
  {
    if a != [] && b != [] && c != [] && a[0] == b[0] && b[0] == c[0] {
      LexLessTransitive(a[1..], b[1..], c[1..]);
    }
  }

  lemma {:induction false} LexLessTotal(a: seq<int>, b: seq<int>)
    requires a != b
    ensures LexLess(a, b) || LexLess(b, a)
    decreases |a|
  {
    if a != [] && b != [] && a[0] == b[0] {
      LexLessTotal(a[1..], b[1..]);
    }
  }

  /** What `docker_client.version()` gave. */
  datatype DockerReply = DaemonNotRunning | ApiError | Version(apiVersion: string)

  /** `_check_docker_version`: the daemon must answer and its normalised
      API version must not be below the required one. An API version that
      does not normalise raises. */
  function CheckDockerVersion(reply: DockerReply, libnetwork: bool): (r: Result<bool, VersionError>)
    ensures reply.DaemonNotRunning? || reply.ApiError? ==> r == Ok(false)
    ensures reply.Version? && NormalizeVersion(reply.apiVersion).Ok? ==>
      var required := if libnetwork then DOCKER_LIBNETWORK_VERSION else DOCKER_VERSION;
      NormalizeVersion(required).Ok? &&
      r == Ok(!LexLess(NormalizeVersion(reply.apiVersion).value, NormalizeVersion(required).value))
    ensures r.Err? <==> reply.Version? && NormalizeVersion(reply.apiVersion).Err?
  {
    var required := if libnetwork then DOCKER_LIBNETWORK_VERSION else DOCKER_VERSION;
    match reply
    case DaemonNotRunning => Ok(false)
    case ApiError => Ok(false)
    case Version(api) =>
      match NormalizeVersion(api)
      case Err(e) => Err(e)
      case Ok(apiVersion) =>
        DockerVersionNormalises();
        LibnetworkVersionNormalises();
        Ok(!LexLess(apiVersion, NormalizeVersion(required).value))
  }

  /** No trailing group to trim when the last character is not '0'. */
  lemma TrimNothing(s: string)
    requires s != [] && s[|s| - 1] != '0'
    ensures TrimZeroGroups(s) == s
  {
    assert ZeroRunStart(s) == |s|;
  }

  /** Two integer parts parse to their values. */
  lemma ParseTwoParts(a: string, b: string, x: int, y: int)
    requires PyInt(a) == Some(x) && PyInt(b) == Some(y)
    ensures ParseParts([a, b]) == Ok([x, y])
  {
    assert ParseParts([]) == Ok([]);
    assert [b][1..] == [];
    assert [y] + [] == [y];
    assert ParseParts([b]) == Ok([y]);
    assert [a, b][1..] == [b];
    assert [x] + [y] == [x, y];
  }

  /** "x.y" normalises to [x, y] when y's last digit is not zero. */
  lemma NormalizePair(x: nat, y: nat)
    requires y % 10 != 0
    ensures NormalizeVersion(NatToString(x) + "." + NatToString(y)) == Ok([x, y])
  {
    var a := NatToString(x);
    var b := NatToString(y);
    var s := a + "." + b;
    NatToStringLast(y);
    assert s[|s| - 1] == b[|b| - 1];
    TrimNothing(s);
    NatToStringDigits(x);
    NatToStringDigits(y);
    assert s == a + ['.'] + b;
    SplitPair(a, b, '.');
    PyIntOfNat(x);
    PyIntOfNat(y);
    ParseTwoParts(a, b, x, y);
  }

  lemma RenderSixteen()
    ensures NatToString(1) + "." + NatToString(16) == DOCKER_VERSION
  {
    assert NatToString(1) == "1";
    assert NatToString(16) == NatToString(1) + "6";
  }

  lemma RenderTwentyOne()
    ensures NatToString(1) + "." + NatToString(21) == DOCKER_LIBNETWORK_VERSION
  {
    assert NatToString(2) == "2";
    assert NatToString(1) == "1";
    assert NatToString(21) == NatToString(2) + "1";
  }

  /** The required versions normalise to [1, 16] and [1, 21]. */
  lemma DockerVersionNormalises()
    ensures NormalizeVersion(DOCKER_VERSION) == Ok([1, 16])
  {
    NormalizePair(1, 16);
    RenderSixteen();
  }

  lemma LibnetworkVersionNormalises()
    ensures NormalizeVersion(DOCKER_LIBNETWORK_VERSION) == Ok([1, 21])
  {
    NormalizePair(1, 21);
    RenderTwentyOne();
  }

  /** A daemon at exactly the required version is accepted. */
  lemma RequiredVersionAccepted(libnetwork: bool)
    ensures CheckDockerVersion(Version(if libnetwork then DOCKER_LIBNETWORK_VERSION else DOCKER_VERSION), libnetwork) == Ok(true)
  {
    DockerVersionNormalises();
    LibnetworkVersionNormalises();
    LexLessIrreflexive([1, 16]);
    LexLessIrreflexive([1, 21]);
  }

  // ---------------------------------------------------------------------
  // check_system

  datatype SystemOutcome = Exited(code: int) | Returned(ok: bool)

  /** `check_system`: `enforce_root()` first exits with status 2 for a
      caller whose effective user id is not 0, before any check runs; then
      the verdict is modules_ok and docker_ok, and with `quitIfError` a
      false verdict exits with status 1 instead of returning. */
  function CheckSystemOutcome(isRoot: bool, quitIfError: bool, modulesOk: bool, dockerOk: bool): (r: SystemOutcome)
    ensures !isRoot ==> r == Exited(2)
    ensures isRoot ==> (r.Exited? <==> quitIfError && !(modulesOk && dockerOk))
    ensures isRoot && r.Exited? ==> r.code == 1
    ensures r.Returned? ==> isRoot && (r.ok <==> modulesOk && dockerOk)
    ensures quitIfError && r.Returned? ==> r.ok
  {
    if !isRoot then Exited(2)
    else
      var systemOk := modulesOk && dockerOk;
      if quitIfError && !systemOk then Exited(1) else Returned(systemOk)
  }
}
