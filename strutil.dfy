/** The handful of Python string builtins the modelled code relies on,
    over strings as sequences of characters. */
module StrUtil {
  import opened Wrappers

  predicate StartsWith(s: string, p: string)
  {
    |p| <= |s| && s[..|p|] == p
  }

  predicate EndsWith(s: string, p: string)
  {
    |p| <= |s| && s[|s| - |p|..] == p
  }

  /** Concatenation regroups freely. */
  lemma ConcatAssoc<T>(a: seq<T>, b: seq<T>, c: seq<T>)
    ensures (a + b) + c == a + (b + c)
  {
  }

  /** `p` occurs in `s` starting at index `j`. */
  predicate OccursAt(s: string, p: string, j: int)
  {
    0 <= j && j + |p| <= |s| && s[j..j + |p|] == p
  }

  /** Python's `p in s` on strings. */
  predicate Contains(s: string, p: string)
  {
    exists j :: 0 <= j <= |s| && OccursAt(s, p, j)
  }

  /** Index of the first occurrence of `p` in `s` (Python's `str.find`). */
  function FindFirst(s: string, p: string): (r: Option<nat>)
    ensures r.Some? ==> OccursAt(s, p, r.value)
    ensures r.Some? ==> forall j :: 0 <= j < r.value ==> !OccursAt(s, p, j)
    ensures r.None? ==> forall j :: !OccursAt(s, p, j)
    decreases |s|
  {
    if |p| <= |s| && s[..|p|] == p then Some(0)
    else if |s| <= |p| then
      None
    else
      match FindFirst(s[1..], p)
      case None =>
        assert forall j :: !OccursAt(s, p, j) by {
          forall j ensures !OccursAt(s, p, j) { OccursShift(s, p, j); }
        }
        None
      case Some(k) =>
        OccursShift(s, p, k + 1);
        assert forall j :: 0 <= j < k + 1 ==> !OccursAt(s, p, j) by {
          forall j | 0 <= j < k + 1 ensures !OccursAt(s, p, j) { OccursShift(s, p, j); }
        }
        Some(k + 1)
  }

  /** An occurrence after the first character is one in the rest. */
  lemma OccursShift(s: string, p: string, j: int)
    ensures 0 < j && s != [] ==> (OccursAt(s, p, j) <==> OccursAt(s[1..], p, j - 1))
  {
    if 0 < j && s != [] && j + |p| <= |s| {
      assert s[1..][j - 1..j - 1 + |p|] == s[j..j + |p|];
    }
  }

  /** Python's `s.replace(old, new, 1)`: only the first occurrence, wherever
      it is, is replaced. */
  function ReplaceFirst(s: string, pat: string, repl: string): (r: string)
    ensures FindFirst(s, pat).None? ==> r == s
    ensures FindFirst(s, pat).Some? ==>
      var k := FindFirst(s, pat).value;
      r == s[..k] + repl + s[k + |pat|..]
  {
    match FindFirst(s, pat)
    case None => s
    case Some(k) => s[..k] + repl + s[k + |pat|..]
  }

  /** Every occurrence of the character `a` replaced by `b`. */
  function ReplaceChar(s: string, a: char, b: char): (r: string)
    ensures |r| == |s|
    ensures forall i :: 0 <= i < |s| ==> r[i] == (if s[i] == a then b else s[i])
  {
    if s == [] then [] else [if s[0] == a then b else s[0]] + ReplaceChar(s[1..], a, b)
  }

  /** ASCII lower-casing (Python's `str.lower` on ASCII text). */
  function LowerChar(c: char): char
  {
    if 'A' <= c <= 'Z' then (c as int - 'A' as int + 'a' as int) as char else c
  }

  function Lower(s: string): (r: string)
    ensures |r| == |s|
    ensures forall i :: 0 <= i < |s| ==> r[i] == LowerChar(s[i])
  {
    if s == [] then [] else [LowerChar(s[0])] + Lower(s[1..])
  }

  /** Lower-casing a literal, one character at a time. */
  lemma LowerIs(s: string, t: string)
    requires |s| == |t| && forall i :: 0 <= i < |s| ==> LowerChar(s[i]) == t[i]
    ensures Lower(s) == t
  {
  }

  /** Python's `str.split(sep)` for a one-character separator. */
  function Split(s: string, sep: char): (r: seq<string>)
    ensures |r| >= 1
    ensures forall i :: 0 <= i < |r| ==> sep !in r[i]
    decreases |s|
  {
    if s == [] then [""]
    else
      var rest := Split(s[1..], sep);
      if s[0] == sep then [""] + rest else [[s[0]] + rest[0]] + rest[1..]
  }

  /** `sep.join(parts)`. */
  function Join(parts: seq<string>, sep: string): string
  {
    if parts == [] then ""
    else if |parts| == 1 then parts[0]
    else parts[0] + sep + Join(parts[1..], sep)
  }

  lemma {:induction false} JoinSplit(s: string, sep: char)
    ensures Join(Split(s, sep), [sep]) == s
    decreases |s|
  {
    if s != [] {
      JoinSplit(s[1..], sep);
      var rest := Split(s[1..], sep);
      if s[0] == sep {
        assert Split(s, sep) == [""] + rest;
        assert Join(Split(s, sep), [sep]) == "" + [sep] + Join(rest, [sep]);
      } else {
        var parts := [[s[0]] + rest[0]] + rest[1..];
        if |rest| == 1 {
          assert Join(parts, [sep]) == [s[0]] + rest[0];
        } else {
          assert parts[1..] == rest[1..];
          assert Join(parts, [sep]) == [s[0]] + rest[0] + [sep] + Join(rest[1..], [sep]);
          assert Join(rest, [sep]) == rest[0] + [sep] + Join(rest[1..], [sep]);
        }
      }
    }
  }

  predicate IsSpace(c: char)
  {
    c == ' ' || c == '\t' || c == '\n' || c == '\r' || c == '\U{000B}' || c == '\U{000C}'
  }

  predicate IsDigit(c: char)
  {
    '0' <= c <= '9'
  }

  predicate IsAlnum(c: char)
  {
    IsDigit(c) || 'a' <= c <= 'z' || 'A' <= c <= 'Z'
  }

  /** Leading whitespace removed (Python's `lstrip()`). */
  function LStrip(s: string): (r: string)
    ensures |r| <= |s| && EndsWith(s, r)
    ensures r == [] || !IsSpace(r[0])
  {
    if s != [] && IsSpace(s[0]) then LStrip(s[1..]) else s
  }

  /** Trailing whitespace removed (Python's `rstrip()`). */
  function RStrip(s: string): (r: string)
    ensures |r| <= |s| && StartsWith(s, r)
    ensures r == [] || !IsSpace(r[|r| - 1])
  {
    if s != [] && IsSpace(s[|s| - 1]) then RStrip(s[..|s| - 1]) else s
  }

  /** Python's `strip()`. */
  function Strip(s: string): (r: string)
    ensures r == [] || (!IsSpace(r[0]) && !IsSpace(r[|r| - 1]))
  {
    LStrip(RStrip(s))
  }

  predicate AllDigits(s: string)
  {
    forall i :: 0 <= i < |s| ==> IsDigit(s[i])
  }

  /** The value of a string of decimal digits (Python's `int()` on it). */
  function DigitsValue(s: string): (n: nat)
    requires AllDigits(s)
  {
    if s == [] then 0 else 10 * DigitsValue(s[..|s| - 1]) + (s[|s| - 1] as int - '0' as int)
  }

  /** Decimal rendering of a natural number (Python's `str()`/`%s`). */
  function NatToString(n: nat): (r: string)
    ensures |r| >= 1 && AllDigits(r)
    ensures DigitsValue(r) == n
    decreases n
  {
    var d := [(n % 10 + '0' as int) as char];
    if n < 10 then d
    else
      var r := NatToString(n / 10) + d;
      assert r[..|r| - 1] == NatToString(n / 10);
      r
  }

  function IntToString(n: int): (r: string)
    ensures n >= 0 ==> r == NatToString(n)
    ensures n < 0 ==> r == "-" + NatToString(-n)
  {
    if n >= 0 then NatToString(n) else "-" + NatToString(-n)
  }

  /** Python's `int()` on a string: surrounding whitespace, an optional
      sign, then decimal digits; anything else raises (None). */
  function PyInt(s: string): (r: Option<int>)
    ensures AllDigits(s) && s != [] ==> r == Some(DigitsValue(s))
  {
    var t := Strip(s);
    if t == [] then None
    else if t[0] == '+' || t[0] == '-' then
      var d := t[1..];
      if d != [] && AllDigits(d) then Some(if t[0] == '-' then 0 - DigitsValue(d) as int else DigitsValue(d) as int) else None
    else if AllDigits(t) then Some(DigitsValue(t))
    else None
  }

  /** `int(str(n)) == n`. */
  lemma PyIntOfIntToString(n: int)
    ensures PyInt(IntToString(n)) == Some(n)
  {
    var r := IntToString(n);
    assert !IsSpace(r[0]) && !IsSpace(r[|r| - 1]);
    assert Strip(r) == r;
    if n < 0 {
      assert r[1..] == NatToString(-n);
    }
  }

  lemma {:induction false} SplitWithoutSep(s: string, sep: char)
    requires sep !in s
    ensures Split(s, sep) == [s]
    decreases |s|
  {
    if s != [] {
      SplitWithoutSep(s[1..], sep);
      assert [s[0]] + s[1..] == s;
    }
  }

  lemma {:induction false} SplitAtSep(a: string, b: string, sep: char)
    requires sep !in a
    ensures Split(a + [sep] + b, sep) == [a] + Split(b, sep)
    decreases |a|
  {
    var s := a + [sep] + b;
    if a == [] {
      assert s[1..] == b;
    } else {
      assert s[1..] == a[1..] + [sep] + b;
      SplitAtSep(a[1..], b, sep);
      assert [a[0]] + a[1..] == a;
    }
  }

  /** Splitting a join of parts free of the separator gives the parts back. */
  lemma {:induction false} SplitJoin(parts: seq<string>, sep: char)
    requires parts != [] && forall k :: 0 <= k < |parts| ==> sep !in parts[k]
    ensures Split(Join(parts, [sep]), sep) == parts
    decreases |parts|
  {
    if |parts| == 1 {
      SplitWithoutSep(parts[0], sep);
    } else {
      SplitJoin(parts[1..], sep);
      assert Join(parts, [sep]) == parts[0] + [sep] + Join(parts[1..], [sep]);
      SplitAtSep(parts[0], Join(parts[1..], [sep]), sep);
    }
  }

  /** A decimal rendering holds digits only. */
  lemma NatToStringDigits(n: nat)
    ensures forall i :: 0 <= i < |NatToString(n)| ==> IsDigit(NatToString(n)[i])
  {
    assert AllDigits(NatToString(n));
  }

  /** `int(str(n)) == n` for a natural number. */
  lemma PyIntOfNat(n: nat)
    ensures PyInt(NatToString(n)) == Some(n as int)
  {
    PyIntOfIntToString(n);
  }

  /** Two separator-free pieces joined by the separator split back apart. */
  lemma SplitPair(a: string, b: string, sep: char)
    requires sep !in a && sep !in b
    ensures Split(a + [sep] + b, sep) == [a, b]
  {
    SplitAtSep(a, b, sep);
    SplitWithoutSep(b, sep);
  }

  /** The last character of a decimal rendering is the last digit. */
  lemma NatToStringLast(n: nat)
    ensures NatToString(n)[|NatToString(n)| - 1] == (n % 10 + '0' as int) as char
  {
  }
}
