/** Selector expressions over label maps: the parsed tree, its evaluation,
    the required label/value pairs it collects for indexing, and its
    canonical rendering (calico/felix/selectors.py). */
module Selectors {
  import opened Wrappers
  import opened StrUtil

  type Labels = map<string, string>

  /** A required label/value pair: `(label, value)`. */
  type KV = (string, string)

  /** What evaluating a label gives: its value, or the special
      `NotPresent` object that is unequal to every literal. */
  datatype Value = Present(s: string) | NotPresent

  function LabelValue(labels: Labels, k: string): (r: Value)
    ensures r.Present? <==> k in labels
    ensures r.Present? ==> r.s == labels[k]
  {
    if k in labels then Present(labels[k]) else NotPresent
  }

  /** The expression tree after parsing. `!=` only compares a label with a
      string literal and `not in` only a label with a set literal, as the
      grammar admits nothing else. */
  datatype Expr =
    | LabelEq(key: string, value: string)
    | LabelIn(key: string, values: set<string>)
    | Ne(key: string, value: string)
    | NotIn(key: string, values: set<string>)
    | Has(key: string)
    | And(exprs: seq<Expr>)
    | Or(exprs: seq<Expr>)
    | All

  // ---------------------------------------------------------------------
  // Evaluation

  function Eval(e: Expr, labels: Labels): bool
    decreases e
  {
    match e
    case LabelEq(k, v) => LabelValue(labels, k) == Present(v)
    case LabelIn(k, vs) => LabelValue(labels, k).Present? && LabelValue(labels, k).s in vs
    case Ne(k, v) => LabelValue(labels, k) != Present(v)
    case NotIn(k, vs) => !(LabelValue(labels, k).Present? && LabelValue(labels, k).s in vs)
    case Has(k) => k in labels
    case And(es) => EvalAll(es, labels)
    case Or(es) => EvalAny(es, labels)
    case All => true
  }

  /** The `AndOp` loop: false at the first falsy child. */
  function EvalAll(es: seq<Expr>, labels: Labels): bool
    decreases es
  {
    if es == [] then true
    else if !Eval(es[0], labels) then false
    else EvalAll(es[1..], labels)
  }

  /** The `OrOp` loop: true at the first truthy child. */
  function EvalAny(es: seq<Expr>, labels: Labels): bool
    decreases es
  {
    if es == [] then false
    else if Eval(es[0], labels) then true
    else EvalAny(es[1..], labels)
  }

  /** `k == "v"` holds exactly when the label is present with that value. */
  lemma EqIff(k: string, v: string, labels: Labels)
    ensures Eval(LabelEq(k, v), labels) <==> (k in labels && labels[k] == v)
  {
  }

  /** `k in {...}` holds exactly when the label is present with a listed value. */
  lemma InIff(k: string, vs: set<string>, labels: Labels)
    ensures Eval(LabelIn(k, vs), labels) <==> (k in labels && labels[k] in vs)
  {
  }

  /** `!=` and `not in` are the exact negations of `==` and `in`. */
  lemma NegatedOps(k: string, v: string, vs: set<string>, labels: Labels)
    ensures Eval(Ne(k, v), labels) == !Eval(LabelEq(k, v), labels)
    ensures Eval(NotIn(k, vs), labels) == !Eval(LabelIn(k, vs), labels)
  {
  }

  /** A missing label is `NotPresent`: every comparison against it is false
      and every negated comparison true. */
  lemma MissingLabel(k: string, v: string, vs: set<string>, labels: Labels)
    requires k !in labels
    ensures !Eval(LabelEq(k, v), labels) && !Eval(LabelIn(k, vs), labels)
    ensures Eval(Ne(k, v), labels) && Eval(NotIn(k, vs), labels)
    ensures !Eval(Has(k), labels)
  {
  }

  lemma HasIff(k: string, labels: Labels)
    ensures Eval(Has(k), labels) <==> k in labels
  {
  }

  lemma {:induction false} EvalAllIff(es: seq<Expr>, labels: Labels)
    ensures EvalAll(es, labels) <==> forall i :: 0 <= i < |es| ==> Eval(es[i], labels)
    decreases es
  {
    if es != [] {
      EvalAllIff(es[1..], labels);
      assert forall i :: 1 <= i < |es| ==> es[i] == es[1..][i - 1];
    }
  }

  lemma {:induction false} EvalAnyIff(es: seq<Expr>, labels: Labels)
    ensures EvalAny(es, labels) <==> exists i :: 0 <= i < |es| && Eval(es[i], labels)
    decreases es
  {
    if es != [] {
      EvalAnyIff(es[1..], labels);
      assert forall i :: 1 <= i < |es| ==> es[i] == es[1..][i - 1];
    }
  }

  /** `AndOp` is true iff every child is; `OrOp` iff some child is. */
  lemma AndOrIff(es: seq<Expr>, labels: Labels)
    ensures Eval(And(es), labels) <==> forall i :: 0 <= i < |es| ==> Eval(es[i], labels)
    ensures Eval(Or(es), labels) <==> exists i :: 0 <= i < |es| && Eval(es[i], labels)
  {
    EvalAllIff(es, labels);
    EvalAnyIff(es, labels);
  }

  /** `and_op`: a single operand is returned itself, otherwise an `AndOp`. */
  function MkAnd(tokens: seq<Expr>): (r: Expr)
    requires |tokens| >= 1
    ensures forall labels :: Eval(r, labels) <==> forall i :: 0 <= i < |tokens| ==> Eval(tokens[i], labels)
    ensures |tokens| == 1 ==> r == tokens[0]
  {
    forall labels ensures EvalAll(tokens, labels) <==> forall i :: 0 <= i < |tokens| ==> Eval(tokens[i], labels) {
      EvalAllIff(tokens, labels);
    }
    if |tokens| == 1 then tokens[0] else And(tokens)
  }

  /** `or_op`: a single operand is returned itself, otherwise an `OrOp`. */
  function MkOr(tokens: seq<Expr>): (r: Expr)
    requires |tokens| >= 1
    ensures forall labels :: Eval(r, labels) <==> exists i :: 0 <= i < |tokens| && Eval(tokens[i], labels)
    ensures |tokens| == 1 ==> r == tokens[0]
  {
    forall labels ensures EvalAny(tokens, labels) <==> exists i :: 0 <= i < |tokens| && Eval(tokens[i], labels) {
      EvalAnyIff(tokens, labels);
    }
    if |tokens| == 1 then tokens[0] else Or(tokens)
  }

  const ALL_OP: Expr := All

  /** `ALL_OP` matches every label map. */
  lemma AllMatches(labels: Labels)
    ensures Eval(ALL_OP, labels)
  {
  }

  /** `_parse_no_cache`: a blank selector or "all()" is `ALL_OP`; anything else
      goes to the grammar, which is a parameter here, and a string it rejects
      raises `BadSelector` carrying the input. */
  function ParseNoCache(s: string, grammar: string -> Option<Expr>): (r: Result<Expr, string>)
    ensures (Strip(s) == "" || Strip(s) == "all()") ==> r == Ok(All)
    ensures r.Err? <==> (Strip(s) != "" && Strip(s) != "all()" && grammar(s).None?)
    ensures r.Err? ==> r.error == s
    ensures r.Ok? && Strip(s) != "" && Strip(s) != "all()" ==> r.value == grammar(s).value
  {
    var t := Strip(s);
    if t == "" || t == "all()" then Ok(ALL_OP)
    else
      match grammar(s)
      case None => Err(s)
      case Some(e) => Ok(e)
  }

  lemma BlankSelectorsMatchAll(grammar: string -> Option<Expr>, labels: Labels)
    ensures ParseNoCache("", grammar) == Ok(All)
    ensures ParseNoCache(" all()\t", grammar) == Ok(All)
    ensures Eval(ParseNoCache(" all()\t", grammar).value, labels)
  {
    var s := " all()\t";
    assert s[..|s| - 1] == " all()";
    assert RStrip(s) == RStrip(" all()");
    assert RStrip(" all()") == " all()";
    assert " all()"[1..] == "all()";
    assert LStrip(" all()") == LStrip("all()");
  }

  // ---------------------------------------------------------------------
  // Required values

  predicate Holds(p: KV, labels: Labels)
  {
    p.0 in labels && labels[p.0] == p.1
  }

  lemma SingletonMembers(vs: set<string>, a: string, b: string)
    requires |vs| == 1 && a in vs && b in vs
    ensures a == b
  {
    assert |vs - {a}| == 0;
    assert b !in vs - {a};
  }

  /** `collect_reqd_values(pr_set)`: the accumulator after the call, with the
      single-valued `in` contributing the pair (label, value). */
  function CollectReqd(e: Expr, acc: set<KV>): set<KV>
    decreases e
  {
    match e
    case LabelEq(k, v) => acc + {(k, v)}
    case LabelIn(k, vs) => if |vs| == 1 then acc + (set v | v in vs :: (k, v)) else acc
    case And(es) => CollectReqdAll(es, acc)
    case Or(es) => if es == [] then acc else CollectReqdIntersect(es[1..], CollectReqd(es[0], acc))
    case _ => acc
  }

  /** `AndOp`: each child adds to the same accumulator, in order. */
  function CollectReqdAll(es: seq<Expr>, acc: set<KV>): set<KV>
    decreases es
  {
    if es == [] then acc else CollectReqdAll(es[1..], CollectReqd(es[0], acc))
  }

  /** `OrOp` after its first child: the accumulator is intersected in place
      with what each further child collects on its own. */
  function CollectReqdIntersect(es: seq<Expr>, acc: set<KV>): set<KV>
    decreases es
  {
    if es == [] then acc else CollectReqdIntersect(es[1..], acc * CollectReqd(es[0], {}))
  }

  /** `required_kvs`: collected into a fresh set. */
  function RequiredKvs(e: Expr): set<KV>
  {
    CollectReqd(e, {})
  }

  lemma {:induction false} IntersectShrinks(es: seq<Expr>, acc: set<KV>)
    ensures CollectReqdIntersect(es, acc) <= acc
    ensures forall i :: 0 <= i < |es| ==> CollectReqdIntersect(es, acc) <= CollectReqd(es[i], {})
    decreases es
  {
    if es != [] {
      IntersectShrinks(es[1..], acc * CollectReqd(es[0], {}));
      assert forall i :: 1 <= i < |es| ==> es[i] == es[1..][i - 1];
    }
  }

  /** Soundness: when the expression matches, every collected pair either was
      already in the accumulator or holds in the labels. */
  lemma {:induction false} ReqdSound(e: Expr, acc: set<KV>, labels: Labels)
    requires Eval(e, labels)
    ensures forall p :: p in CollectReqd(e, acc) ==> p in acc || Holds(p, labels)
    decreases e
  {
    match e
    case LabelEq(k, v) =>
    case LabelIn(k, vs) =>
      if |vs| == 1 {
        forall w | w in vs ensures w == labels[k] {
          SingletonMembers(vs, w, labels[k]);
        }
      }
    case And(es) =>
      EvalAllIff(es, labels);
      ReqdAllSound(es, acc, labels);
    case Or(es) =>
      EvalAnyIff(es, labels);
      var j :| 0 <= j < |es| && Eval(es[j], labels);
      IntersectShrinks(es[1..], CollectReqd(es[0], acc));
      if j == 0 {
        ReqdSound(es[0], acc, labels);
      } else {
        assert es[j] == es[1..][j - 1];
        ReqdSound(es[j], {}, labels);
      }
    case Ne(k, v) =>
    case NotIn(k, vs) =>
    case Has(k) =>
    case All =>
  }

  lemma {:induction false} ReqdAllSound(es: seq<Expr>, acc: set<KV>, labels: Labels)
    requires forall i :: 0 <= i < |es| ==> Eval(es[i], labels)
    ensures forall p :: p in CollectReqdAll(es, acc) ==> p in acc || Holds(p, labels)
    decreases es
  {
    if es != [] {
      ReqdSound(es[0], acc, labels);
      assert forall i :: 0 <= i < |es[1..]| ==> es[1..][i] == es[i + 1];
      ReqdAllSound(es[1..], CollectReqd(es[0], acc), labels);
    }
  }

  /** `required_kvs` is sound: a matching label map has every required pair. */
  lemma RequiredKvsSound(e: Expr, labels: Labels)
    requires Eval(e, labels)
    ensures forall p :: p in RequiredKvs(e) ==> Holds(p, labels)
  {
    ReqdSound(e, {}, labels);
  }

  /** The docstring's example: `a == 'b'` requires exactly ("a", "b"), and a
      conjunction unions the requirements of its children. */
  lemma RequiredKvsExamples()
    ensures RequiredKvs(LabelEq("a", "b")) == {("a", "b")}
    ensures RequiredKvs(And([LabelEq("a", "b"), LabelIn("c", {"d"}), Has("e")])) == {("a", "b"), ("c", "d")}
    ensures RequiredKvs(LabelIn("c", {"d", "f"})) == {}
  {
    RequiredKvsOfConjunction();
    assert |{"d", "f"}| == 2;
  }

  lemma RequiredKvsOfConjunction()
    ensures RequiredKvs(And([LabelEq("a", "b"), LabelIn("c", {"d"}), Has("e")])) == {("a", "b"), ("c", "d")}
  {
    var es := [LabelEq("a", "b"), LabelIn("c", {"d"}), Has("e")];
    var acc := {("a", "b")};
    assert CollectReqdAll(es, {}) == CollectReqdAll(es[1..], acc);
    SingleValueIn("c", "d", acc);
    assert acc + {("c", "d")} == {("a", "b"), ("c", "d")};
    assert CollectReqdAll(es[1..], acc) == CollectReqdAll(es[1..][1..], {("a", "b"), ("c", "d")});
    assert es[1..][1..][1..] == [];
  }

  /** An `in` with one value requires its (label, value) pair. */
  lemma SingleValueIn(k: string, v: string, acc: set<KV>)
    ensures CollectReqd(LabelIn(k, {v}), acc) == acc + {(k, v)}
  {
    assert |{v}| == 1;
    assert (set w | w in {v} :: (k, w)) == {(k, v)};
  }

  /** An `OrOp` inside an `AndOp` intersects the shared accumulator, so a
      pair an earlier conjunct collected can be lost: the result is sound but
      not the union the conjunction suggests. */
  lemma OrDropsEnclosingPairs()
    ensures RequiredKvs(And([LabelEq("a", "b"), Or([LabelEq("c", "d"), LabelEq("c", "e")])])) == {}
  {
    var o := [LabelEq("c", "d"), LabelEq("c", "e")];
    assert CollectReqd(o[0], {("a", "b")}) == {("a", "b"), ("c", "d")};
    assert CollectReqdIntersect(o[1..], {("a", "b"), ("c", "d")}) == {};
    var es := [LabelEq("a", "b"), Or(o)];
    assert es[1..][1..] == [];
  }

  /** A requirement as the source accumulates it: a (label, value) pair, or
      the bare value a single-valued `in` adds. */
  datatype Req = Pair(k: string, v: string) | Bare(v: string)

  /** `collect_reqd_values` as written: `pr_set.update(self.rhs)` puts the
      set's one string, not a pair, into the accumulator. */
  function CollectReqdAsWritten(e: Expr, acc: set<Req>): set<Req>
    decreases e
  {
    match e
    case LabelEq(k, v) => acc + {Pair(k, v)}
    case LabelIn(k, vs) => if |vs| == 1 then acc + (set v | v in vs :: Bare(v)) else acc
    case And(es) => CollectReqdAllAsWritten(es, acc)
    case Or(es) => if es == [] then acc else CollectReqdIntersectAsWritten(es[1..], CollectReqdAsWritten(es[0], acc))
    case _ => acc
  }

  function CollectReqdAllAsWritten(es: seq<Expr>, acc: set<Req>): set<Req>
    decreases es
  {
    if es == [] then acc else CollectReqdAllAsWritten(es[1..], CollectReqdAsWritten(es[0], acc))
  }

  function CollectReqdIntersectAsWritten(es: seq<Expr>, acc: set<Req>): set<Req>
    decreases es
  {
    if es == [] then acc else CollectReqdIntersectAsWritten(es[1..], acc * CollectReqdAsWritten(es[0], {}))
  }

  /** `a in {"x"} && has(b)` matches {a: x, b: y}, yet as written its only
      requirement is the bare string "x", which names no (label, value) pair
      the labels have, so an index keyed by pairs finds no candidate. */
  lemma BareValueRequirement()
    ensures Eval(And([LabelIn("a", {"x"}), Has("b")]), map["a" := "x", "b" := "y"])
    ensures CollectReqdAsWritten(And([LabelIn("a", {"x"}), Has("b")]), {}) == {Bare("x")}
    ensures RequiredKvs(And([LabelIn("a", {"x"}), Has("b")])) == {("a", "x")}
  {
    BareValueMatches();
    BareValueCollected();
    var es := [LabelIn("a", {"x"}), Has("b")];
    SingleValueIn("a", "x", {});
    assert CollectReqdAll(es, {}) == CollectReqdAll(es[1..], {("a", "x")});
    assert es[1..][1..] == [];
  }

  lemma BareValueMatches()
    ensures Eval(And([LabelIn("a", {"x"}), Has("b")]), map["a" := "x", "b" := "y"])
  {
    var es := [LabelIn("a", {"x"}), Has("b")];
    var labels := map["a" := "x", "b" := "y"];
    assert Eval(es[0], labels) && Eval(es[1], labels);
    EvalAllIff(es, labels);
  }

  lemma BareValueCollected()
    ensures CollectReqdAsWritten(And([LabelIn("a", {"x"}), Has("b")]), {}) == {Bare("x")}
  {
    var es := [LabelIn("a", {"x"}), Has("b")];
    assert |{"x"}| == 1;
    assert (set v | v in {"x"} :: Bare(v)) == {Bare("x")};
    assert CollectReqdAllAsWritten(es, {}) == CollectReqdAllAsWritten(es[1..], {Bare("x")});
    assert es[1..][1..] == [];
  }

  /** The in-place accumulation of `collect_reqd_values`, with the loops of
      `AndOp` and `OrOp`. */
  method CollectReqdValues(e: Expr, acc: set<KV>) returns (r: set<KV>)
    ensures r == CollectReqd(e, acc)
    decreases e
  {
    match e {
      case And(es) =>
        r := acc;
        var i := 0;
        while i < |es|
          invariant 0 <= i <= |es|
          invariant CollectReqdAll(es[i..], r) == CollectReqd(e, acc)
        {
          assert es[i..][1..] == es[i + 1..];
          r := CollectReqdValues(es[i], r);
          i := i + 1;
        }
      case Or(es) =>
        if es == [] {
          r := acc;
        } else {
          r := CollectReqdValues(es[0], acc);
          var i := 1;
          while i < |es|
            invariant 1 <= i <= |es|
            invariant CollectReqdIntersect(es[i..], r) == CollectReqd(e, acc)
          {
            assert es[i..][1..] == es[i + 1..];
            var next := CollectReqdValues(es[i], {});
            r := r * next;
            i := i + 1;
          }
          assert es[1..] == es[1..];
        }
      case _ =>
        r := CollectReqd(e, acc);
    }
  }

  // ---------------------------------------------------------------------
  // Canonical rendering

  /** How literals are printed: Python's `repr` of a string, and the order
      a frozenset yields its members in. Both are outside the model. */
  datatype Printer = Printer(repr: string -> string, order: set<string> -> seq<string>)

  /** `order` lists every member of the set exactly once. */
  ghost predicate ListsOnce(p: Printer)
  {
    forall vs: set<string> :: (set v | v in p.order(vs)) == vs && |p.order(vs)| == |vs|
  }

  function Concat(frags: seq<string>): string
  {
    if frags == [] then "" else Concat(frags[..|frags| - 1]) + frags[|frags| - 1]
  }

  lemma {:induction false} ConcatAppend(frags: seq<string>, more: seq<string>)
    ensures Concat(frags + more) == Concat(frags) + Concat(more)
    decreases |more|
  {
    if more == [] {
      assert frags + more == frags;
    } else {
      var ini, last := more[..|more| - 1], more[|more| - 1];
      var n := |frags + more|;
      assert (frags + more)[..n - 1] == frags + ini;
      assert (frags + more)[n - 1] == last;
      assert Concat(frags + more) == Concat(frags + ini) + last;
      ConcatAppend(frags, ini);
      ConcatAssoc(Concat(frags), Concat(ini), last);
    }
  }

  lemma ConcatSnoc(frags: seq<string>, s: string)
    ensures Concat(frags + [s]) == Concat(frags) + s
  {
    assert (frags + [s])[..|frags|] == frags;
  }

  /** The members of a set literal, in iteration order, comma separated. */
  function SetItems(p: Printer, vs: seq<string>): string
  {
    if vs == [] then ""
    else if |vs| == 1 then p.repr(vs[0])
    else SetItems(p, vs[..|vs| - 1]) + "," + p.repr(vs[|vs| - 1])
  }

  function SetStr(p: Printer, vs: set<string>): (r: string)
    ensures |r| >= 2 && r[0] == '{' && r[|r| - 1] == '}'
  {
    "{" + SetItems(p, p.order(vs)) + "}"
  }

  /** The string `collect_str_fragments` joins to: the canonical text of
      the expression. */
  function Str(p: Printer, e: Expr): string
    decreases e
  {
    match e
    case LabelEq(k, v) => k + " == " + p.repr(v)
    case LabelIn(k, vs) => k + " in " + SetStr(p, vs)
    case Ne(k, v) => k + " " + "!=" + " " + p.repr(v)
    case NotIn(k, vs) => k + " " + "not in" + " " + SetStr(p, vs)
    case Has(k) => "has(" + k + ")"
    case And(es) => "(" + JoinStr(p, es, "&&") + ")"
    case Or(es) => "(" + JoinStr(p, es, "||") + ")"
    case All => "all()"
  }

  /** Children separated by `" " + op + " "`. */
  function JoinStr(p: Printer, es: seq<Expr>, op: string): string
    decreases es
  {
    if es == [] then ""
    else if |es| == 1 then Str(p, es[0])
    else JoinStr(p, es[..|es| - 1], op) + " " + op + " " + Str(p, es[|es| - 1])
  }

  /** `collect_set_string_fragments`: braces around the members, with a
      comma before every member but the first. */
  method CollectSetFragments(p: Printer, vs: set<string>, frags: seq<string>) returns (r: seq<string>)
    ensures Concat(r) == Concat(frags) + SetStr(p, vs)
  {
    var items := p.order(vs);
    r := frags + ["{"];
    ConcatSnoc(frags, "{");
    var first := true;
    var i := 0;
    while i < |items|
      invariant 0 <= i <= |items|
      invariant first <==> i == 0
      invariant Concat(r) == Concat(frags) + "{" + SetItems(p, items[..i])
    {
      assert items[..i + 1][..i] == items[..i];
      if !first {
        ConcatSnoc(r, ",");
        r := r + [","];
      } else {
        first := false;
      }
      ConcatSnoc(r, p.repr(items[i]));
      r := r + [p.repr(items[i])];
      i := i + 1;
    }
    assert items[..i] == items;
    ConcatSnoc(r, "}");
    r := r + ["}"];
  }

  /** `collect_str_fragments(fragment_list)`: appends fragments that join to
      the canonical text of the expression. */
  method CollectStrFragments(p: Printer, e: Expr, frags: seq<string>) returns (r: seq<string>)
    ensures Concat(r) == Concat(frags) + Str(p, e)
    decreases e
  {
    match e {
      case LabelEq(_, _) =>
        r := CollectComparisonFragments(p, e, frags);
      case LabelIn(_, _) =>
        r := CollectComparisonFragments(p, e, frags);
      case Ne(_, _) =>
        r := CollectComparisonFragments(p, e, frags);
      case NotIn(_, _) =>
        r := CollectComparisonFragments(p, e, frags);
      case Has(k) =>
        r := frags + ["has(" + k + ")"];
        ConcatSnoc(frags, "has(" + k + ")");
      case And(es) =>
        r := CollectListFragments(p, es, "&&", frags);
      case Or(es) =>
        r := CollectListFragments(p, es, "||", frags);
      case All =>
        r := frags + ["all()"];
        ConcatSnoc(frags, "all()");
    }
  }

  lemma SpacedOperator(pre: string, k: string, op: string, rest: string)
    ensures pre + k + " " + op + " " + rest == pre + (k + " " + op + " " + rest)
  {
  }

  lemma PaddedOperator(pre: string, k: string, op: string, rest: string)
    ensures pre + k + op + rest == pre + (k + op + rest)
  {
  }

  /** The comparisons: `BinaryOp` writes label, operator and literal with a
      space either side of the operator; `==` and `in` write the operator
      padded as one fragment. */
  method CollectComparisonFragments(p: Printer, e: Expr, frags: seq<string>) returns (r: seq<string>)
    requires e.LabelEq? || e.LabelIn? || e.Ne? || e.NotIn?
    ensures Concat(r) == Concat(frags) + Str(p, e)
  {
    match e {
      case LabelEq(k, v) =>
        r := frags;
        ConcatSnoc(r, k);
        r := r + [k];
        ConcatSnoc(r, " == ");
        r := r + [" == "];
        ConcatSnoc(r, p.repr(v));
        r := r + [p.repr(v)];
        PaddedOperator(Concat(frags), k, " == ", p.repr(v));
      case LabelIn(k, vs) =>
        r := frags;
        ConcatSnoc(r, k);
        r := r + [k];
        ConcatSnoc(r, " in ");
        r := r + [" in "];
        r := CollectSetFragments(p, vs, r);
        PaddedOperator(Concat(frags), k, " in ", SetStr(p, vs));
      case Ne(k, v) =>
        r := frags;
        ConcatSnoc(r, k);
        r := r + [k];
        ConcatSnoc(r, " ");
        r := r + [" "];
        ConcatSnoc(r, "!=");
        r := r + ["!="];
        ConcatSnoc(r, " ");
        r := r + [" "];
        ConcatSnoc(r, p.repr(v));
        r := r + [p.repr(v)];
        assert Concat(r) == Concat(frags) + k + " " + "!=" + " " + p.repr(v);
        SpacedOperator(Concat(frags), k, "!=", p.repr(v));
      case NotIn(k, vs) =>
        r := frags;
        ConcatSnoc(r, k);
        r := r + [k];
        ConcatSnoc(r, " ");
        r := r + [" "];
        ConcatSnoc(r, "not in");
        r := r + ["not in"];
        ConcatSnoc(r, " ");
        r := r + [" "];
        assert Concat(r) == Concat(frags) + k + " " + "not in" + " ";
        r := CollectSetFragments(p, vs, r);
        SpacedOperator(Concat(frags), k, "not in", SetStr(p, vs));
    }
  }

  /** `ListOp.collect_str_fragments`: parentheses around the children, with
      the operator between neighbours. */
  method CollectListFragments(p: Printer, es: seq<Expr>, op: string, frags: seq<string>) returns (r: seq<string>)
    ensures Concat(r) == Concat(frags) + "(" + JoinStr(p, es, op) + ")"
    decreases es, 0
  {
    ConcatSnoc(frags, "(");
    r := frags + ["("];
    ghost var pre := Concat(frags) + "(";
    var first := true;
    var i := 0;
    while i < |es|
      invariant 0 <= i <= |es|
      invariant first <==> i == 0
      invariant Concat(r) == pre + JoinStr(p, es[..i], op)
    {
      ghost var done := JoinStr(p, es[..i], op);
      JoinStrStep(p, es, op, i);
      if !first {
        ConcatSnoc(r, " ");
        r := r + [" "];
        ConcatSnoc(r, op);
        r := r + [op];
        ConcatSnoc(r, " ");
        r := r + [" "];
        assert Concat(r) == pre + done + " " + op + " ";
        r := CollectStrFragments(p, es[i], r);
        SpacedOperator(pre, done, op, Str(p, es[i]));
      } else {
        first := false;
        assert es[..i] == [] && Concat(r) == pre;
        r := CollectStrFragments(p, es[i], r);
      }
      i := i + 1;
    }
    assert es[..i] == es;
    ConcatSnoc(r, ")");
    r := r + [")"];
  }

  /** One more operand: the joined text grows by the operator and the
      operand's text, or is the operand alone when it is the first. */
  lemma JoinStrStep(p: Printer, es: seq<Expr>, op: string, i: nat)
    requires i < |es|
    ensures JoinStr(p, es[..i + 1], op)
      == if i == 0 then Str(p, es[i]) else JoinStr(p, es[..i], op) + " " + op + " " + Str(p, es[i])
  {
    assert es[..i + 1][..i] == es[..i];
    assert es[..i + 1][i] == es[i];
  }

  /** A single-operand `and_op`/`or_op` renders as the operand itself. */
  lemma SingleOperandRendersAsOperand(p: Printer, e: Expr)
    ensures Str(p, MkAnd([e])) == Str(p, e) && Str(p, MkOr([e])) == Str(p, e)
    ensures Str(p, And([e])) == "(" + Str(p, e) + ")"
  {
  }

  /** A conjunction renders as `(a == 'b' && has(c))`. */
  lemma RenderExample(p: Printer)
    requires p.repr("b") == "'b'"
    ensures Str(p, And([LabelEq("a", "b"), Has("c")])) == "(a == 'b' && has(c))"
  {
    var es := [LabelEq("a", "b"), Has("c")];
    assert es[..1] == [LabelEq("a", "b")];
  }

  /** A one-member set literal renders its one member. */
  lemma RenderSingletonSet(p: Printer, k: string, v: string)
    requires ListsOnce(p)
    ensures Str(p, LabelIn(k, {v})) == k + " in {" + p.repr(v) + "}"
  {
    var items := p.order({v});
    assert (set x | x in items) == {v} && |items| == 1;
    assert items[0] in (set x | x in items);
  }

  /** Structurally equal trees (`__eq__`, datatype equality here) render
      equal strings, whatever the set order; a tree and its negation never do. */
  lemma RenderDistinguishesNegation(p: Printer, k: string, v: string)
    ensures Str(p, LabelEq(k, v)) != Str(p, Ne(k, v))
  {
    var a := Str(p, LabelEq(k, v));
    var b := Str(p, Ne(k, v));
    assert a[|k| + 1] == '=';
    assert b[|k| + 1] == '!';
  }

  // ---------------------------------------------------------------------
  // The top-level expression and its caches

  /** `SelectorExpression`: the expression tree with lazily computed
      `required_kvs` and `str` caches. */
  class SelectorExpression {
    const exprOp: Expr
    const printer: Printer
    var prereqValues: Option<set<KV>>
    var strCache: Option<string>

    ghost predicate Valid()
      reads this
    {
      (prereqValues.Some? ==> prereqValues.value == RequiredKvs(exprOp)) &&
      (strCache.Some? ==> strCache.value == Str(printer, exprOp))
    }

    constructor (e: Expr, p: Printer)
      ensures exprOp == e && printer == p
      ensures prereqValues == None && strCache == None
      ensures Valid()
    {
      exprOp := e;
      printer := p;
      prereqValues := None;
      strCache := None;
    }

    function Evaluate(labels: Labels): (r: bool)
      ensures r == Eval(exprOp, labels)
    {
      Eval(exprOp, labels)
    }

    /** `required_kvs`: computed on first use and cached. */
    method RequiredKvsCached() returns (r: set<KV>)
      requires Valid()
      modifies this
      ensures Valid() && r == RequiredKvs(exprOp)
      ensures prereqValues == Some(r) && strCache == old(strCache)
    {
      if prereqValues.None? {
        var s := CollectReqdValues(exprOp, {});
        prereqValues := Some(s);
      }
      r := prereqValues.value;
    }

    /** `__str__`: the fragments joined, computed on first use and cached. */
    method ToString() returns (r: string)
      requires Valid()
      modifies this
      ensures Valid() && r == Str(printer, exprOp)
      ensures strCache == Some(r) && prereqValues == old(prereqValues)
    {
      if strCache.None? {
        var frags := CollectStrFragments(printer, exprOp, []);
        strCache := Some(Concat(frags));
      }
      r := strCache.value;
    }

    /** `__eq__`: the same object, or an equal tree (the hash is a function of
        the tree, so comparing it first changes nothing). */
    predicate Equals(other: SelectorExpression)
      ensures Equals(other) <==> exprOp == other.exprOp
    {
      this == other || exprOp == other.exprOp
    }
  }
}
