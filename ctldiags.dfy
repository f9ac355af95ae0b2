// `calicoctl diags`: the file name derived from a diagnostics command, and
// the exception policy of the writer's context manager.

module CtlDiags {
  import opened Wrappers
  import opened StrUtil

  // ---------------------------------------------------------------------
  // File name sanitising.

  /** No two adjacent '|' characters. */
  predicate NoDoubleBar(s: string)
  {
    forall i :: 0 <= i < |s| - 1 ==> !(s[i] == '|' && s[i + 1] == '|')
  }

  /** Index of the first "||". */
  function FirstDoubleBar(s: string): (r: Option<nat>)
    ensures r.Some? ==> r.value + 1 < |s| && s[r.value] == '|' && s[r.value + 1] == '|'
    ensures r.Some? ==> NoDoubleBar(s[..r.value + 1])
    ensures r.None? ==> NoDoubleBar(s)
  {
    if |s| < 2 then None
    else if s[0] == '|' && s[1] == '|' then Some(0)
    else
      match FirstDoubleBar(s[1..])
      case None => None
      case Some(i) =>
        assert s[..i + 2] == [s[0]] + s[1..][..i + 1];
        Some(i + 1)
  }

  /** Start of the run of whitespace that ends just before index `q`. */
  function RunStart(s: string, q: nat): (p: nat)
    requires q <= |s|
    ensures p <= q
    ensures forall j :: p <= j < q ==> IsSpace(s[j])
    ensures p == 0 || !IsSpace(s[p - 1])
  {
    if q == 0 || !IsSpace(s[q - 1]) then q else RunStart(s, q - 1)
  }

  /** End of the line holding index `q`: the next '\n' at or after it, or
      the end of the text (Python's `.` does not match a newline). */
  function LineEnd(s: string, q: nat): (e: nat)
    requires q <= |s|
    ensures q <= e <= |s|
    ensures e < |s| ==> s[e] == '\n'
    ensures forall j :: q <= j < e ==> s[j] != '\n'
    decreases |s| - q
  {
    if q == |s| || s[q] == '\n' then q else LineEnd(s, q + 1)
  }

  /** `re.sub(r'\s*\|\|.*', "", s)`: each "||" clause, with the whitespace
      in front of it, is removed up to the end of its line. */
  function StripClauses(s: string): (r: string)
    ensures |r| <= |s|
    ensures NoDoubleBar(r)
    ensures r != [] && r[0] == '|' ==> s != [] && s[0] == '|'
    decreases |s|
  {
    match FirstDoubleBar(s)
    case None => s
    case Some(q) =>
      var p := RunStart(s, q);
      var e := LineEnd(s, q + 2);
      var rest := StripClauses(s[e..]);
      assert NoDoubleBar(s[..p]) by {
        assert forall i :: 0 <= i < p - 1 ==> s[..p][i] == s[..q + 1][i];
      }
      assert rest == [] || rest[0] != '|';
      s[..p] + rest
  }

  /** On a one-line command, everything from the whitespace in front of the
      first "||" onward is dropped. */
  lemma StripClausesOneLine(s: string)
    requires '\n' !in s
    ensures FirstDoubleBar(s).None? ==> StripClauses(s) == s
    ensures FirstDoubleBar(s).Some? ==> StripClauses(s) == s[..RunStart(s, FirstDoubleBar(s).value)]
  {
    if FirstDoubleBar(s).Some? {
      var q := FirstDoubleBar(s).value;
      assert LineEnd(s, q + 2) == |s|;
      assert s[|s|..] == [];
      var p := RunStart(s, q);
      assert s[..p] + [] == s[..p];
    }
  }

  /** The characters `[a-zA-Z0-9 -]` keeps. */
  predicate Allowed(c: char)
  {
    IsAlnum(c) || c == ' ' || c == '-'
  }

  /** `re.sub(r'[^a-zA-Z0-9 -]', "", s)`. */
  function KeepAllowed(s: string): (r: string)
    ensures |r| <= |s|
    ensures forall i :: 0 <= i < |r| ==> Allowed(r[i])
    ensures (forall i :: 0 <= i < |s| ==> Allowed(s[i])) ==> r == s
  {
    if s == [] then []
    else if Allowed(s[0]) then [s[0]] + KeepAllowed(s[1..])
    else KeepAllowed(s[1..])
  }

  /** `re.sub(r'\s', "_", s)`. */
  function Underscores(s: string): (r: string)
    ensures |r| == |s|
    ensures forall i :: 0 <= i < |s| ==> r[i] == (if IsSpace(s[i]) then '_' else s[i])
  {
    if s == [] then [] else [if IsSpace(s[0]) then '_' else s[0]] + Underscores(s[1..])
  }

  /** The diagnostics file name for a command. */
  function DiagsFilename(command: string): (r: string)
    ensures |r| <= |command|
    ensures forall i :: 0 <= i < |r| ==> IsAlnum(r[i]) || r[i] == '-' || r[i] == '_'
  {
    var kept := KeepAllowed(StripClauses(command));
    var r := Underscores(kept);
    assert forall i :: 0 <= i < |r| ==> IsAlnum(r[i]) || r[i] == '-' || r[i] == '_' by {
      forall i | 0 <= i < |r| ensures IsAlnum(r[i]) || r[i] == '-' || r[i] == '_' {
        assert Allowed(kept[i]);
      }
    }
    r
  }

  /** A one-line command made of letters, digits, spaces and '-' and without
      a "||" clause keeps every character, spaces becoming '_'. */
  lemma PlainCommandName(command: string)
    requires forall i :: 0 <= i < |command| ==> Allowed(command[i])
    ensures |DiagsFilename(command)| == |command|
    ensures forall i :: 0 <= i < |command| ==>
      DiagsFilename(command)[i] == (if command[i] == ' ' then '_' else command[i])
  {
    assert '\n' !in command by {
      assert forall i :: 0 <= i < |command| ==> command[i] != '\n';
    }
    assert NoDoubleBar(command);
    StripClausesOneLine(command);
  }

  /** Underscores in the command itself are dropped by the character
      filter before spaces become underscores: "a_b" is named "ab". */
  lemma UnderscoreDropped()
    ensures DiagsFilename("a_b") == "ab"
  {
    assert FirstDoubleBar("a_b").None?;
    assert KeepAllowed("a_b") == "ab";
  }

  // ---------------------------------------------------------------------
  // DiagsErrorWriter.__exit__

  /** The exception, if any, that left the `with` block. */
  datatype ExcType = NoException | KeyboardInterrupt | OtherException(name: string)

  /** The context manager's verdict: true swallows the exception. */
  function ExitSwallows(exc: ExcType): (rc: bool)
    ensures rc <==> exc.OtherException?
  {
    if exc == KeyboardInterrupt then false
    else if exc == NoException then false
    else true
  }

  /** A KeyboardInterrupt still propagates out of the `with` block, and
      every other exception is swallowed. */
  lemma ExitPropagates(exc: ExcType)
    ensures exc == KeyboardInterrupt ==> !ExitSwallows(exc)
    ensures exc == NoException ==> !ExitSwallows(exc)
    ensures forall name :: ExitSwallows(OtherException(name))
  {
  }
}
