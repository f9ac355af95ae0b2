// Release tooling: version strings, the increment classifier and the
// master-only block filter applied to documentation files.

module ReleaseUtils {
  import opened Wrappers
  import opened StrUtil

  // ---------------------------------------------------------------------
  // Version strings.

  /** (major, minor, patch, name). */
  datatype VersionTuple = VersionTuple(major: nat, minor: nat, patch: nat, name: Option<string>)

  /** Python's `\w` without the UNICODE flag. */
  predicate IsWordChar(c: char)
  {
    IsAlnum(c) || c == '_'
  }

  /** Number of leading decimal digits. */
  function LeadingDigits(s: string): (k: nat)
    ensures k <= |s|
    ensures forall i :: 0 <= i < k ==> IsDigit(s[i])
    ensures k < |s| ==> !IsDigit(s[k])
  {
    if s != [] && IsDigit(s[0]) then 1 + LeadingDigits(s[1..]) else 0
  }

  /** A `(\d+)` group at the start of `s`: its value and the remaining text. */
  function TakeNumber(s: string): (r: Option<(nat, string)>)
    ensures r.Some? ==> exists k :: 1 <= k <= |s| && AllDigits(s[..k]) && r.value == (DigitsValue(s[..k]), s[k..])
                                    && (k == |s| || !IsDigit(s[k]))
    ensures r.None? <==> s == [] || !IsDigit(s[0])
  {
    var k := LeadingDigits(s);
    if k == 0 then None
    else
      assert AllDigits(s[..k]);
      Some((DigitsValue(s[..k]), s[k..]))
  }

  /** The text `$` matches against: a final newline does not count. */
  function WithoutFinalNewline(s: string): string
  {
    if s != [] && s[|s| - 1] == '\n' then s[..|s| - 1] else s
  }

  /** The name part after `[.-]`: one or more word characters. */
  predicate IsName(s: string)
  {
    s != [] && forall i :: 0 <= i < |s| ==> IsWordChar(s[i])
  }

  /** `^v(\d+)\.(\d+)\.(\d+)$`, then `^v(\d+)\.(\d+)\.(\d+)[.-](\w+)$`. */
  function GetVersionTuple(version: string): (r: Option<VersionTuple>)
    ensures r.Some? ==> WithoutFinalNewline(version) != [] && WithoutFinalNewline(version)[0] == 'v'
    ensures r.Some? && r.value.name.Some? ==> IsName(r.value.name.value)
  {
    var t := WithoutFinalNewline(version);
    if t == [] || t[0] != 'v' then None else ParseMajor(t[1..])
  }

  /** The text after the 'v'. */
  function ParseMajor(s: string): (r: Option<VersionTuple>)
    ensures r.Some? && r.value.name.Some? ==> IsName(r.value.name.value)
  {
    match TakeNumber(s)
    case None => None
    case Some((major, rest)) =>
      if rest == [] || rest[0] != '.' then None else ParseMinor(major, rest[1..])
  }

  /** The text after the first '.'. */
  function ParseMinor(major: nat, s: string): (r: Option<VersionTuple>)
    ensures r.Some? && r.value.name.Some? ==> IsName(r.value.name.value)
  {
    match TakeNumber(s)
    case None => None
    case Some((minor, rest)) =>
      if rest == [] || rest[0] != '.' then None else ParsePatch(major, minor, rest[1..])
  }

  /** The text after the second '.'. */
  function ParsePatch(major: nat, minor: nat, s: string): (r: Option<VersionTuple>)
    ensures r.Some? && r.value.name.Some? ==> IsName(r.value.name.value)
  {
    match TakeNumber(s)
    case None => None
    case Some((patch, rest)) => ParseName(major, minor, patch, rest)
  }

  /** The text after the patch number: nothing, or `[.-]` and a name. */
  function ParseName(major: nat, minor: nat, patch: nat, s: string): (r: Option<VersionTuple>)
    ensures r.Some? && r.value.name.Some? ==> IsName(r.value.name.value)
  {
    if s == [] then Some(VersionTuple(major, minor, patch, None))
    else if (s[0] == '.' || s[0] == '-') && IsName(s[1..]) then
      Some(VersionTuple(major, minor, patch, Some(s[1..])))
    else None
  }

  /** The canonical string of a version: "vX.Y.Z" or "vX.Y.Z-name". */
  function VersionString(v: VersionTuple): string
  {
    "v" + NatToString(v.major) + "." + NatToString(v.minor) + "." + NatToString(v.patch)
    + NameSuffix(v.name)
  }

  /** A rendered number is read back by `(\d+)`, up to the next non-digit. */
  lemma TakeNumberOfRender(n: nat, rest: string)
    requires rest == [] || !IsDigit(rest[0])
    ensures TakeNumber(NatToString(n) + rest) == Some((n, rest))
  {
    var d := NatToString(n);
    var s := d + rest;
    LeadingDigitsOfDigits(d, rest);
    assert s[..|d|] == d && s[|d|..] == rest;
  }

  lemma {:induction false} LeadingDigitsOfDigits(d: string, rest: string)
    requires AllDigits(d)
    requires rest == [] || !IsDigit(rest[0])
    ensures LeadingDigits(d + rest) == |d|
    decreases |d|
  {
    if d != [] {
      assert (d + rest)[1..] == d[1..] + rest;
      assert AllDigits(d[1..]) by {
        assert forall i :: 0 <= i < |d[1..]| ==> d[1..][i] == d[i + 1];
      }
      LeadingDigitsOfDigits(d[1..], rest);
    } else {
      assert d + rest == rest;
    }
  }

  /** The suffix of the canonical string after the patch number. */
  function NameSuffix(name: Option<string>): string
  {
    match name
    case None => ""
    case Some(n) => "-" + n
  }

  /** A canonical string does not end with a newline. */
  lemma NoFinalNewline(v: VersionTuple, s: string)
    requires v.name.Some? ==> IsName(v.name.value)
    requires s == "v" + (NatToString(v.major) + ("." + (NatToString(v.minor) + ("." + (NatToString(v.patch) + NameSuffix(v.name))))))
    ensures WithoutFinalNewline(s) == s
  {
    var c := NatToString(v.patch);
    var tail := NameSuffix(v.name);
    if v.name.Some? {
      assert s[|s| - 1] == tail[|tail| - 1] == v.name.value[|v.name.value| - 1];
    } else {
      NatToStringDigits(v.patch);
      assert s[|s| - 1] == c[|c| - 1];
    }
  }

  /** The name suffix is read back. */
  lemma ParseNameOfSuffix(v: VersionTuple)
    requires v.name.Some? ==> IsName(v.name.value)
    ensures ParseName(v.major, v.minor, v.patch, NameSuffix(v.name)) == Some(v)
  {
    if v.name.Some? {
      assert NameSuffix(v.name)[1..] == v.name.value;
    }
  }

  /** "Z" followed by the suffix is read back. */
  lemma ParsePatchOfRender(v: VersionTuple)
    requires v.name.Some? ==> IsName(v.name.value)
    ensures ParsePatch(v.major, v.minor, NatToString(v.patch) + NameSuffix(v.name)) == Some(v)
  {
    var tail := NameSuffix(v.name);
    assert tail == [] || !IsDigit(tail[0]);
    TakeNumberOfRender(v.patch, tail);
    ParseNameOfSuffix(v);
  }

  /** "Y.Z" followed by the suffix is read back. */
  lemma ParseMinorOfRender(v: VersionTuple)
    requires v.name.Some? ==> IsName(v.name.value)
    ensures ParseMinor(v.major, NatToString(v.minor) + ("." + (NatToString(v.patch) + NameSuffix(v.name)))) == Some(v)
  {
    var rest := "." + (NatToString(v.patch) + NameSuffix(v.name));
    TakeNumberOfRender(v.minor, rest);
    assert rest[1..] == NatToString(v.patch) + NameSuffix(v.name);
    ParsePatchOfRender(v);
  }

  /** "X.Y.Z" followed by the suffix is read back. */
  lemma ParseMajorOfRender(v: VersionTuple)
    requires v.name.Some? ==> IsName(v.name.value)
    ensures ParseMajor(NatToString(v.major) + ("." + (NatToString(v.minor) + ("." + (NatToString(v.patch) + NameSuffix(v.name)))))) == Some(v)
  {
    var rest := "." + (NatToString(v.minor) + ("." + (NatToString(v.patch) + NameSuffix(v.name))));
    TakeNumberOfRender(v.major, rest);
    assert rest[1..] == NatToString(v.minor) + ("." + (NatToString(v.patch) + NameSuffix(v.name)));
    ParseMinorOfRender(v);
  }

  /** The canonical string of a version parses back to it. */
  lemma VersionRoundTrip(v: VersionTuple)
    requires v.name.Some? ==> IsName(v.name.value)
    ensures GetVersionTuple(VersionString(v)) == Some(v)
  {
    var t := NatToString(v.major) + ("." + (NatToString(v.minor) + ("." + (NatToString(v.patch) + NameSuffix(v.name)))));
    var s := VersionString(v);
    assert s == "v" + t;
    NoFinalNewline(v, s);
    assert s[1..] == t;
    ParseMajorOfRender(v);
  }

  // ---------------------------------------------------------------------
  // The text the two version patterns accept, stated level by level.

  /** A `(\d+)` group: one or more digits. */
  ghost predicate IsNumeral(d: string)
  {
    d != [] && AllDigits(d)
  }

  /** What may follow the patch number: nothing (no name), or `[.-]` and a
      name of word characters, which becomes the tuple's name. */
  ghost predicate NameTail(tail: string, name: Option<string>)
  {
    if tail == [] then name == None
    else (tail[0] == '.' || tail[0] == '-') && IsName(tail[1..]) && name == Some(tail[1..])
  }

  /** `s` reads `Z` then the name tail, giving `v` on top of the numbers already read. */
  ghost predicate PatchShape(major: nat, minor: nat, s: string, v: VersionTuple)
  {
    && v.major == major && v.minor == minor
    && exists c, tail :: IsNumeral(c) && s == c + tail && DigitsValue(c) == v.patch && NameTail(tail, v.name)
  }

  /** `s` reads `Y.Z` then the name tail. */
  ghost predicate MinorShape(major: nat, s: string, v: VersionTuple)
  {
    && v.major == major
    && exists b, rest :: IsNumeral(b) && s == b + "." + rest && DigitsValue(b) == v.minor && PatchShape(major, v.minor, rest, v)
  }

  /** `s` reads `X.Y.Z` then the name tail. */
  ghost predicate MajorShape(s: string, v: VersionTuple)
  {
    exists a, rest :: IsNumeral(a) && s == a + "." + rest && DigitsValue(a) == v.major && MinorShape(v.major, rest, v)
  }

  /** The whole text, before an optional final newline, reads
      `vX.Y.Z` or `vX.Y.Z` + `[.-]name`, and `v` holds those numbers and that name. */
  ghost predicate VersionShape(version: string, v: VersionTuple)
  {
    var t := WithoutFinalNewline(version);
    t != [] && t[0] == 'v' && MajorShape(t[1..], v)
  }

  /** A digit group followed by a non-digit is read whole by `(\d+)`. */
  lemma TakeNumberOfNumeral(d: string, rest: string)
    requires IsNumeral(d)
    requires rest == [] || !IsDigit(rest[0])
    ensures TakeNumber(d + rest) == Some((DigitsValue(d), rest))
  {
    LeadingDigitsOfDigits(d, rest);
    var s := d + rest;
    assert s[..|d|] == d && s[|d|..] == rest;
  }

  /** What follows the patch number gives `v` exactly when it is nothing or `[.-]name`. */
  lemma ParseNameIff(major: nat, minor: nat, patch: nat, s: string, v: VersionTuple)
    ensures ParseName(major, minor, patch, s) == Some(v) <==>
      v.major == major && v.minor == minor && v.patch == patch && NameTail(s, v.name)
  {
  }

  /** The text after the second '.' gives `v` exactly when it reads `Z` and a name tail. */
  lemma ParsePatchIff(major: nat, minor: nat, s: string, v: VersionTuple)
    ensures ParsePatch(major, minor, s) == Some(v) <==> PatchShape(major, minor, s, v)
  {
    if ParsePatch(major, minor, s) == Some(v) {
      var k := LeadingDigits(s);
      var c, tail := s[..k], s[k..];
      assert s == c + tail;
      assert IsNumeral(c);
      ParseNameIff(major, minor, DigitsValue(c), tail, v);
    }
    if PatchShape(major, minor, s, v) {
      var c, tail :| IsNumeral(c) && s == c + tail && DigitsValue(c) == v.patch && NameTail(tail, v.name);
      TakeNumberOfNumeral(c, tail);
      ParseNameIff(major, minor, v.patch, tail, v);
    }
  }

  /** The text after the first '.' gives `v` exactly when it reads `Y.Z` and a name tail. */
  lemma ParseMinorIff(major: nat, s: string, v: VersionTuple)
    ensures ParseMinor(major, s) == Some(v) <==> MinorShape(major, s, v)
  {
    if ParseMinor(major, s) == Some(v) {
      ParseMinorShape(major, s, v);
    }
    if MinorShape(major, s, v) {
      var b, rest :| IsNumeral(b) && s == b + "." + rest && DigitsValue(b) == v.minor && PatchShape(major, v.minor, rest, v);
      NumberThenDot(b, rest);
      ParsePatchIff(major, v.minor, rest, v);
    }
  }

  lemma ParseMinorShape(major: nat, s: string, v: VersionTuple)
    requires ParseMinor(major, s) == Some(v)
    ensures MinorShape(major, s, v)
  {
    var b, rest := NumberDotSplit(s);
    assert ParsePatch(major, DigitsValue(b), rest) == Some(v);
    ParsePatchIff(major, DigitsValue(b), rest, v);
  }

  /** The group read by `(\d+)` and the text after the '.' that follows it. */
  lemma NumberDotSplit(s: string) returns (d: string, rest: string)
    requires TakeNumber(s).Some? && TakeNumber(s).value.1 != [] && TakeNumber(s).value.1[0] == '.'
    ensures IsNumeral(d) && s == d + "." + rest
    ensures TakeNumber(s).value.0 == DigitsValue(d) && TakeNumber(s).value.1[1..] == rest
  {
    var k := LeadingDigits(s);
    d, rest := s[..k], s[k + 1..];
    assert TakeNumber(s) == Some((DigitsValue(d), s[k..]));
    assert s[k..][1..] == rest;
    assert s == d + "." + rest;
  }

  /** A digit group, a '.' and the rest: the group is read and the '.' follows. */
  lemma NumberThenDot(d: string, rest: string)
    requires IsNumeral(d)
    ensures TakeNumber(d + "." + rest) == Some((DigitsValue(d), "." + rest))
    ensures ("." + rest)[1..] == rest
  {
    assert d + "." + rest == d + ("." + rest);
    TakeNumberOfNumeral(d, "." + rest);
  }

  /** The text after the 'v' gives `v` exactly when it reads `X.Y.Z` and a name tail. */
  lemma ParseMajorIff(s: string, v: VersionTuple)
    ensures ParseMajor(s) == Some(v) <==> MajorShape(s, v)
  {
    if ParseMajor(s) == Some(v) {
      ParseMajorShape(s, v);
    }
    if MajorShape(s, v) {
      var a, rest :| IsNumeral(a) && s == a + "." + rest && DigitsValue(a) == v.major && MinorShape(v.major, rest, v);
      NumberThenDot(a, rest);
      ParseMinorIff(v.major, rest, v);
    }
  }

  lemma ParseMajorShape(s: string, v: VersionTuple)
    requires ParseMajor(s) == Some(v)
    ensures MajorShape(s, v)
  {
    var a, rest := NumberDotSplit(s);
    assert ParseMinor(DigitsValue(a), rest) == Some(v);
    ParseMinorIff(DigitsValue(a), rest, v);
  }

  /** `_get_version_tuple` returns `v` exactly when the text has the shape of
      one of the two patterns with v's numbers and name; every other text
      gives None. */
  lemma GetVersionTupleIff(version: string, v: VersionTuple)
    ensures GetVersionTuple(version) == Some(v) <==> VersionShape(version, v)
  {
    var t := WithoutFinalNewline(version);
    if t != [] && t[0] == 'v' {
      ParseMajorIff(t[1..], v);
    }
  }

  /** The None case: no tuple fits the text. */
  lemma GetVersionTupleNone(version: string)
    ensures GetVersionTuple(version).None? <==> forall v :: !VersionShape(version, v)
  {
    if GetVersionTuple(version).Some? {
      GetVersionTupleIff(version, GetVersionTuple(version).value);
    } else {
      forall v ensures !VersionShape(version, v) {
        GetVersionTupleIff(version, v);
      }
    }
  }

  /** The accepted texts written out: `v` + X + `.` + Y + `.` + Z + tail, for
      digit groups X, Y, Z (leading zeros allowed) and a tail that is empty or
      `[.-]name`, parse to their values and that name. */
  lemma GetVersionTupleOfParts(a: string, b: string, c: string, tail: string, name: Option<string>)
    requires IsNumeral(a) && IsNumeral(b) && IsNumeral(c) && NameTail(tail, name)
    ensures GetVersionTuple("v" + a + "." + b + "." + c + tail)
         == Some(VersionTuple(DigitsValue(a), DigitsValue(b), DigitsValue(c), name))
  {
    var v := VersionTuple(DigitsValue(a), DigitsValue(b), DigitsValue(c), name);
    ParseMajorOfParts(a, b, c, tail, v);
    PartsEndWithoutNewline(c, tail, name);
    VersionText(a, b, c, tail);
    GetVersionTupleOfV(a + "." + (b + "." + (c + tail)));
  }

  /** Past a leading `v`, a text that does not end in a newline is parsed whole. */
  lemma GetVersionTupleOfV(ar: string)
    requires ar != [] && ar[|ar| - 1] != '\n'
    ensures GetVersionTuple("v" + ar) == ParseMajor(ar)
  {
    var s := "v" + ar;
    assert s[|s| - 1] == ar[|ar| - 1];
    assert s[1..] == ar;
  }

  /** The text regrouped around its two dots; it ends as its last part does. */
  lemma VersionText(a: string, b: string, c: string, tail: string)
    requires c + tail != []
    ensures "v" + a + "." + b + "." + c + tail == "v" + (a + "." + (b + "." + (c + tail)))
    ensures var ar := a + "." + (b + "." + (c + tail)); ar != [] && ar[|ar| - 1] == (c + tail)[|c + tail| - 1]
  {
  }

  /** The digit groups and the tail, put together, parse past the `v` to the version. */
  lemma ParseMajorOfParts(a: string, b: string, c: string, tail: string, v: VersionTuple)
    requires IsNumeral(a) && IsNumeral(b) && IsNumeral(c) && NameTail(tail, v.name)
    requires v.major == DigitsValue(a) && v.minor == DigitsValue(b) && v.patch == DigitsValue(c)
    ensures ParseMajor(a + "." + (b + "." + (c + tail))) == Some(v)
  {
    assert PatchShape(v.major, v.minor, c + tail, v);
    assert MinorShape(v.major, b + "." + (c + tail), v);
    assert MajorShape(a + "." + (b + "." + (c + tail)), v);
    ParseMajorIff(a + "." + (b + "." + (c + tail)), v);
  }

  /** A patch number and a name tail do not end in a newline. */
  lemma PartsEndWithoutNewline(c: string, tail: string, name: Option<string>)
    requires IsNumeral(c) && NameTail(tail, name)
    ensures var p := c + tail; p != [] && p[|p| - 1] != '\n'
  {
    var p := c + tail;
    if tail == [] {
      assert p[|p| - 1] == c[|c| - 1];
    } else {
      assert p[|p| - 1] == tail[|tail| - 1] == tail[1..][|tail| - 2];
    }
  }

  // ---------------------------------------------------------------------
  // check_version_increment

  datatype Increment = MajorIncrement | MinorIncrement | PatchUpdate | DevelopmentUpdate

  predicate IsMajor(o: VersionTuple, n: VersionTuple)
  {
    n.major == o.major + 1 && n.minor == 0 && n.patch == 0
  }

  predicate IsMinor(o: VersionTuple, n: VersionTuple)
  {
    n.major == o.major && n.minor == o.minor + 1 && n.patch == 0
  }

  predicate IsPatch(o: VersionTuple, n: VersionTuple)
  {
    n.major == o.major && n.minor == o.minor && n.patch == o.patch + 1
  }

  predicate IsDevelopment(o: VersionTuple, n: VersionTuple)
  {
    n.major == o.major && n.minor == o.minor && n.patch == o.patch && n.name != o.name
  }

  /** Raised when the old version does not parse (its tuple cannot be unpacked). */
  datatype IncrementError = InvalidOldVersion

  /** An invalid new version is reported as None before the old one is
      looked at; each classification holds exactly when its own condition
      does, the four conditions being disjoint. */
  function CheckVersionIncrement(oldVersion: string, newVersion: string): (r: Result<Option<Increment>, IncrementError>)
    ensures GetVersionTuple(newVersion).None? ==> r == Ok(None)
    ensures GetVersionTuple(newVersion).Some? && GetVersionTuple(oldVersion).None? ==> r == Err(InvalidOldVersion)
    ensures GetVersionTuple(newVersion).Some? && GetVersionTuple(oldVersion).Some? ==>
      var o := GetVersionTuple(oldVersion).value;
      var n := GetVersionTuple(newVersion).value;
      && (r == Ok(Some(MajorIncrement)) <==> IsMajor(o, n))
      && (r == Ok(Some(MinorIncrement)) <==> IsMinor(o, n))
      && (r == Ok(Some(PatchUpdate)) <==> IsPatch(o, n))
      && (r == Ok(Some(DevelopmentUpdate)) <==> IsDevelopment(o, n))
      && (r == Ok(None) <==> !IsMajor(o, n) && !IsMinor(o, n) && !IsPatch(o, n) && !IsDevelopment(o, n))
  {
    var nt := GetVersionTuple(newVersion);
    var ot := GetVersionTuple(oldVersion);
    if nt.None? then Ok(None)
    else if ot.None? then Err(InvalidOldVersion)
    else
      var o := ot.value;
      var n := nt.value;
      if IsMajor(o, n) then Ok(Some(MajorIncrement))
      else if IsMinor(o, n) then Ok(Some(MinorIncrement))
      else if IsPatch(o, n) then Ok(Some(PatchUpdate))
      else if IsDevelopment(o, n) then Ok(Some(DevelopmentUpdate))
      else Ok(None)
  }

  /** The version one step on from `o`. */
  function Bump(o: VersionTuple, kind: Increment, name: Option<string>): (n: VersionTuple)
  {
    match kind
    case MajorIncrement => VersionTuple(o.major + 1, 0, 0, name)
    case MinorIncrement => VersionTuple(o.major, o.minor + 1, 0, name)
    case PatchUpdate => VersionTuple(o.major, o.minor, o.patch + 1, name)
    case DevelopmentUpdate => VersionTuple(o.major, o.minor, o.patch, name)
  }

  /** Releasing the canonical string of a bumped version is classified as
      that bump (a development update needs a different name). */
  lemma BumpClassified(o: VersionTuple, kind: Increment, name: Option<string>)
    requires o.name.Some? ==> IsName(o.name.value)
    requires name.Some? ==> IsName(name.value)
    requires kind == DevelopmentUpdate ==> name != o.name
    ensures CheckVersionIncrement(VersionString(o), VersionString(Bump(o, kind, name))) == Ok(Some(kind))
  {
    VersionRoundTrip(o);
    VersionRoundTrip(Bump(o, kind, name));
  }

  // ---------------------------------------------------------------------
  // The master-only block filter of update_files.

  const BLOCK_INDICATOR_MASTER_START: string := "<!--- master only -->"
  const BLOCK_INDICATOR_MASTER_ELSE: string := "<!--- else"
  const BLOCK_INDICATOR_MASTER_END: string := "<!--- end of master only -->"

  /** What the filter sees in a line, testing the three marker prefixes in
      the order the loop does. */
  datatype LineKind = StartMarker | ElseMarker | EndMarker | Text

  function KindOf(line: string): LineKind
  {
    if StartsWith(line, BLOCK_INDICATOR_MASTER_START) then StartMarker
    else if StartsWith(line, BLOCK_INDICATOR_MASTER_ELSE) then ElseMarker
    else if StartsWith(line, BLOCK_INDICATOR_MASTER_END) then EndMarker
    else Text
  }

  /** The failing assertions of the filter. */
  datatype BlockError = NestedStart | ElseWithoutStart | EndWithoutStart | UnterminatedStart

  /** Each line with the substitutions applied. */
  function Substituted(subst: string -> string, lines: seq<string>): (r: seq<string>)
    ensures |r| == |lines|
    ensures forall k :: 0 <= k < |lines| ==> r[k] == subst(lines[k])
  {
    if lines == [] then [] else [subst(lines[0])] + Substituted(subst, lines[1..])
  }

  /** No marker among the lines. */
  predicate AllText(lines: seq<string>)
  {
    forall k :: 0 <= k < |lines| ==> KindOf(lines[k]) == Text
  }

  /** The filter over the remaining lines, from the flags `keep` (the
      source's `include`) and `master` with `acc` already emitted; outside
      release mode every line counts as text. */
  function FilterFrom(lines: seq<string>, isRelease: bool, subst: string -> string,
                      keep: bool, master: bool, acc: seq<string>): (r: Result<seq<string>, BlockError>)
    ensures r.Ok? ==> acc <= r.value
    decreases |lines|
  {
    if lines == [] then (if master then Err(UnterminatedStart) else Ok(acc))
    else
      var line := lines[0];
      var rest := lines[1..];
      match if isRelease then KindOf(line) else Text
      case StartMarker =>
        if master then Err(NestedStart) else FilterFrom(rest, isRelease, subst, false, true, acc)
      case ElseMarker =>
        if !master then Err(ElseWithoutStart) else FilterFrom(rest, isRelease, subst, true, master, acc)
      case EndMarker =>
        if !master then Err(EndWithoutStart) else FilterFrom(rest, isRelease, subst, true, false, acc)
      case Text =>
        if keep then FilterFrom(rest, isRelease, subst, keep, master, acc + [subst(line)])
        else FilterFrom(rest, isRelease, subst, keep, master, acc)
  }

  function FilterLines(lines: seq<string>, isRelease: bool, subst: string -> string): Result<seq<string>, BlockError>
  {
    FilterFrom(lines, isRelease, subst, true, false, [])
  }

  /** The line loop of `update_files` for one file. */
  method UpdateLines(oldLines: seq<string>, isRelease: bool, subst: string -> string)
    returns (r: Result<seq<string>, BlockError>)
    ensures r == FilterLines(oldLines, isRelease, subst)
  {
    var newLines: seq<string> := [];
    var keep := true;
    var masterBlock := false;
    var i := 0;
    while i < |oldLines|
      invariant 0 <= i <= |oldLines|
      invariant FilterLines(oldLines, isRelease, subst)
        == FilterFrom(oldLines[i..], isRelease, subst, keep, masterBlock, newLines)
    {
      var line := oldLines[i];
      assert oldLines[i..][1..] == oldLines[i + 1..];
      i := i + 1;
      if isRelease {
        var kind := KindOf(line);
        if kind == StartMarker {
          if masterBlock {
            return Err(NestedStart);
          }
          masterBlock := true;
          keep := false;
          continue;
        }
        if kind == ElseMarker {
          if !masterBlock {
            return Err(ElseWithoutStart);
          }
          keep := true;
          continue;
        }
        if kind == EndMarker {
          if !masterBlock {
            return Err(EndWithoutStart);
          }
          keep := true;
          masterBlock := false;
          continue;
        }
      }
      if keep {
        newLines := newLines + [subst(line)];
      }
    }
    if masterBlock {
      return Err(UnterminatedStart);
    }
    r := Ok(newLines);
  }

  /** One text line is emitted when kept and dropped otherwise. */
  lemma TextStep(lines: seq<string>, isRelease: bool, subst: string -> string,
                 keep: bool, master: bool, acc: seq<string>)
    requires lines != [] && (isRelease ==> KindOf(lines[0]) == Text)
    ensures FilterFrom(lines, isRelease, subst, keep, master, acc)
      == FilterFrom(lines[1..], isRelease, subst, keep, master, if keep then acc + [subst(lines[0])] else acc)
  {
  }

  /** A marker line in release mode, accepted by the current state, only
      changes the flags. */
  lemma MarkerStep(lines: seq<string>, subst: string -> string, keep: bool, master: bool, acc: seq<string>)
    requires lines != []
    ensures KindOf(lines[0]) == StartMarker && !master ==>
      FilterFrom(lines, true, subst, keep, master, acc) == FilterFrom(lines[1..], true, subst, false, true, acc)
    ensures KindOf(lines[0]) == ElseMarker && master ==>
      FilterFrom(lines, true, subst, keep, master, acc) == FilterFrom(lines[1..], true, subst, true, true, acc)
    ensures KindOf(lines[0]) == EndMarker && master ==>
      FilterFrom(lines, true, subst, keep, master, acc) == FilterFrom(lines[1..], true, subst, true, false, acc)
  {
  }

  /** A run of lines without markers, in either mode, is emitted
      (substituted) when kept and dropped otherwise, leaving the flags
      alone. */
  lemma {:induction false} PlainRun(lines: seq<string>, rest: seq<string>, isRelease: bool, subst: string -> string,
                                    keep: bool, master: bool, acc: seq<string>)
    requires isRelease ==> AllText(lines)
    ensures FilterFrom(lines + rest, isRelease, subst, keep, master, acc)
      == FilterFrom(rest, isRelease, subst, keep, master, acc + (if keep then Substituted(subst, lines) else []))
    decreases |lines|
  {
    if lines == [] {
      assert lines + rest == rest;
      assert acc + [] == acc;
    } else {
      var all := lines + rest;
      assert all[0] == lines[0];
      assert all[1..] == lines[1..] + rest;
      TextStep(all, isRelease, subst, keep, master, acc);
      var acc' := if keep then acc + [subst(lines[0])] else acc;
      assert isRelease ==> AllText(lines[1..]) by {
        if isRelease {
          assert forall k :: 0 <= k < |lines[1..]| ==> lines[1..][k] == lines[k + 1];
        }
      }
      PlainRun(lines[1..], rest, isRelease, subst, keep, master, acc');
      if keep {
        ConcatAssoc(acc, [subst(lines[0])], Substituted(subst, lines[1..]));
      }
    }
  }

  /** Outside release mode every line is kept, substituted, in order. */
  lemma MasterKeepsEverything(lines: seq<string>, subst: string -> string)
    ensures FilterLines(lines, false, subst) == Ok(Substituted(subst, lines))
  {
    PlainRun(lines, [], false, subst, true, false, []);
    assert lines + [] == lines;
    assert [] + Substituted(subst, lines) == Substituted(subst, lines);
  }

  /** In release mode a master-only block is replaced by its else part: the
      three marker lines and the lines between start and else vanish, the
      lines between else and end stay. */
  lemma ReleaseBlock(pre: seq<string>, master: seq<string>, release: seq<string>, post: seq<string>,
                     start: string, els: string, end: string, subst: string -> string)
    requires AllText(pre) && AllText(master) && AllText(release) && AllText(post)
    requires KindOf(start) == StartMarker && KindOf(els) == ElseMarker && KindOf(end) == EndMarker
    ensures FilterLines(pre + [start] + master + [els] + release + [end] + post, true, subst)
      == Ok(Substituted(subst, pre) + Substituted(subst, release) + Substituted(subst, post))
  {
    var p := Substituted(subst, pre);
    var tail3 := [end] + post;
    var tail1 := [els] + (release + tail3);
    var startOn := [start] + (master + tail1);
    ConcatShape(pre, start, master, els, release, end, post);
    PlainRun(pre, startOn, true, subst, true, false, []);
    assert [] + p == p;
    BlockFrom(startOn, master, release, post, start, els, end, subst, p);
  }

  lemma ConcatShape<T>(pre: seq<T>, start: T, master: seq<T>, els: T, release: seq<T>, end: T, post: seq<T>)
    ensures pre + [start] + master + [els] + release + [end] + post
      == pre + ([start] + (master + ([els] + (release + ([end] + post)))))
  {
  }

  /** From the start marker on: the master part is dropped and the release
      part kept. */
  lemma BlockFrom(startOn: seq<string>, master: seq<string>, release: seq<string>, post: seq<string>,
                  start: string, els: string, end: string, subst: string -> string, p: seq<string>)
    requires AllText(master) && AllText(release) && AllText(post)
    requires KindOf(start) == StartMarker && KindOf(els) == ElseMarker && KindOf(end) == EndMarker
    requires startOn == [start] + (master + ([els] + (release + ([end] + post))))
    ensures FilterFrom(startOn, true, subst, true, false, p)
      == Ok(p + Substituted(subst, release) + Substituted(subst, post))
  {
    var tail3 := [end] + post;
    var tail1 := [els] + (release + tail3);
    var q := p + Substituted(subst, release);
    MarkerStep(startOn, subst, true, false, p);
    assert startOn[1..] == master + tail1;
    PlainRun(master, tail1, true, subst, false, true, p);
    assert p + [] == p;
    MarkerStep(tail1, subst, false, true, p);
    assert tail1[1..] == release + tail3;
    PlainRun(release, tail3, true, subst, true, true, p);
    MarkerStep(tail3, subst, true, true, q);
    assert tail3[1..] == post;
    PlainRun(post, [], true, subst, true, false, q);
    assert post + [] == post;
  }

  /** A start marker inside a block, an else or end marker outside one, and
      a block left open at the end all fail. */
  lemma MisplacedMarkersFail(line: string, rest: seq<string>, subst: string -> string, keep: bool, acc: seq<string>)
    ensures KindOf(line) == StartMarker ==>
      FilterFrom([line] + rest, true, subst, keep, true, acc) == Err(NestedStart)
    ensures KindOf(line) == ElseMarker ==>
      FilterFrom([line] + rest, true, subst, keep, false, acc) == Err(ElseWithoutStart)
    ensures KindOf(line) == EndMarker ==>
      FilterFrom([line] + rest, true, subst, keep, false, acc) == Err(EndWithoutStart)
    ensures FilterFrom([], true, subst, keep, true, acc) == Err(UnterminatedStart)
  {
    assert ([line] + rest)[0] == line && ([line] + rest)[1..] == rest;
  }

  /** A start marker whose block never ends fails, whatever precedes it. */
  lemma UnterminatedBlockFails(pre: seq<string>, start: string, body: seq<string>, subst: string -> string)
    requires AllText(pre) && AllText(body)
    requires KindOf(start) == StartMarker
    ensures FilterLines(pre + [start] + body, true, subst) == Err(UnterminatedStart)
  {
    var p := Substituted(subst, pre);
    assert pre + [start] + body == pre + ([start] + body);
    PlainRun(pre, [start] + body, true, subst, true, false, []);
    assert ([start] + body)[1..] == body;
    PlainRun(body, [], true, subst, false, true, [] + p);
    assert body + [] == body;
  }

  /** The marker lines themselves are recognised as such. */
  lemma MarkerLinesClassified()
    ensures KindOf(BLOCK_INDICATOR_MASTER_START) == StartMarker
    ensures KindOf(BLOCK_INDICATOR_MASTER_ELSE) == ElseMarker
    ensures KindOf(BLOCK_INDICATOR_MASTER_END) == EndMarker
  {
    assert BLOCK_INDICATOR_MASTER_ELSE[6] == 'e' && BLOCK_INDICATOR_MASTER_START[6] == 'm';
    assert BLOCK_INDICATOR_MASTER_END[7] == 'n' && BLOCK_INDICATOR_MASTER_ELSE[7] == 'l';
  }
}
