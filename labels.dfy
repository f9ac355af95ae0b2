/** Incremental indexes from selector expressions to the items whose labels
    they match (calico/felix/labels.py). The one-to-many multimap the
    indexes are built from is a map of sets here; the match bookkeeping the
    three indexes share (`_update_matches`, `_store_match`, `_discard_match`,
    `total_evaluations`) is the class `MatchIndex`, which each index holds. */
module LabelIndex {
  import opened Wrappers
  import opened Selectors

  type ItemId = string
  type ExprId = string
  type ParentId = string

  // ---------------------------------------------------------------------
  // The one-to-many index

  type OneToMany<K, V> = map<K, set<V>>

  predicate Contains<K, V>(m: OneToMany<K, V>, k: K, v: V)
  {
    k in m && v in m[k]
  }

  /** `iter_values(k)`: the values stored under `k`, none for a missing key. */
  function Values<K(!new), V(!new)>(m: OneToMany<K, V>, k: K): (r: set<V>)
    ensures forall v :: v in r <==> Contains(m, k, v)
  {
    if k in m then m[k] else {}
  }

  function NumItems<K(!new), V(!new)>(m: OneToMany<K, V>, k: K): nat
  {
    |Values(m, k)|
  }

  /** `add(k, v)`: exactly the pair (k, v) is added. */
  function AddTo<K(!new), V(!new)>(m: OneToMany<K, V>, k: K, v: V): (r: OneToMany<K, V>)
    ensures forall k', v' :: Contains(r, k', v') <==> Contains(m, k', v') || (k' == k && v' == v)
  {
    m[k := Values(m, k) + {v}]
  }

  /** `discard(k, v)`: exactly the pair (k, v) is removed; a key left with
      no values is dropped. */
  function DiscardFrom<K(!new), V(!new)>(m: OneToMany<K, V>, k: K, v: V): (r: OneToMany<K, V>)
    ensures forall k', v' :: Contains(r, k', v') <==> Contains(m, k', v') && !(k' == k && v' == v)
    ensures k in r ==> r[k] != {}
  {
    var rest := Values(m, k) - {v};
    if rest == {} then
      assert forall v' :: Contains(m, k, v') ==> v' == v by {
        forall v' | Contains(m, k, v') ensures v' == v {
          assert v' !in rest;
        }
      }
      m - {k}
    else m[k := rest]
  }

  // ---------------------------------------------------------------------
  // Matches and their events

  /** The calls to `on_match_started`/`on_match_stopped`, in order. */
  datatype Event = Started(e: ExprId, i: ItemId) | Stopped(e: ExprId, i: ItemId)

  /** The event for a change of match status: none when it is unchanged. */
  function Transition(was: bool, now: bool, e: ExprId, i: ItemId): (r: seq<Event>)
    ensures |r| <= 1
    ensures r == [] <==> was == now
    ensures r != [] ==> r[0].e == e && r[0].i == i && (r[0].Started? <==> now)
  {
    if was == now then [] else if now then [Started(e, i)] else [Stopped(e, i)]
  }

  /** The two inverse one-to-many indexes of matches, the evaluation counter
      and the log of match events. */
  class MatchIndex {
    var byExpr: OneToMany<ExprId, ItemId>
    var byItem: OneToMany<ItemId, ExprId>
    var totalEvaluations: nat
    var events: seq<Event>

    /** `matches_by_expr_id` and `matches_by_item_id` are inverse relations. */
    ghost predicate Valid()
      reads this
    {
      forall e, i :: Contains(byExpr, e, i) <==> Contains(byItem, i, e)
    }

    predicate Matched(e: ExprId, i: ItemId)
      reads this
    {
      Contains(byExpr, e, i)
    }

    constructor ()
      ensures Valid() && events == [] && totalEvaluations == 0
      ensures forall e, i :: !Matched(e, i)
    {
      byExpr := map[];
      byItem := map[];
      totalEvaluations := 0;
      events := [];
    }

    /** `_store_match`: records the match, and reports it only when it is new. */
    method StoreMatch(e: ExprId, i: ItemId)
      requires Valid()
      modifies this
      ensures Valid()
      ensures forall e', i' :: Contains(byExpr, e', i') <==> Contains(old(byExpr), e', i') || (e' == e && i' == i)
      ensures events == old(events) + Transition(Contains(old(byExpr), e, i), true, e, i)
      ensures totalEvaluations == old(totalEvaluations)
    {
      if !Contains(byExpr, e, i) {
        byExpr := AddTo(byExpr, e, i);
        byItem := AddTo(byItem, i, e);
        events := events + [Started(e, i)];
      }
    }

    /** `_discard_match`: forgets the match, and reports it only when there was one. */
    method DiscardMatch(e: ExprId, i: ItemId)
      requires Valid()
      modifies this
      ensures Valid()
      ensures forall e', i' :: Contains(byExpr, e', i') <==> Contains(old(byExpr), e', i') && !(e' == e && i' == i)
      ensures events == old(events) + Transition(Contains(old(byExpr), e, i), false, e, i)
      ensures totalEvaluations == old(totalEvaluations)
    {
      if Contains(byExpr, e, i) {
        byExpr := DiscardFrom(byExpr, e, i);
        byItem := DiscardFrom(byItem, i, e);
        events := events + [Stopped(e, i)];
      }
    }

    /** `_update_matches`: an expression or labels missing means no match;
        otherwise the expression is evaluated, and counted. */
    method UpdateMatches(e: ExprId, expr: Option<Expr>, i: ItemId, labels: Option<Labels>)
      requires Valid()
      modifies this
      ensures Valid()
      ensures Contains(byExpr, e, i) <==> expr.Some? && labels.Some? && Eval(expr.value, labels.value)
      ensures forall e', i' :: !(e' == e && i' == i) ==> (Contains(byExpr, e', i') <==> Contains(old(byExpr), e', i'))
      ensures events == old(events) + Transition(Contains(old(byExpr), e, i), expr.Some? && labels.Some? && Eval(expr.value, labels.value), e, i)
      ensures totalEvaluations == old(totalEvaluations) + (if expr.Some? && labels.Some? then 1 else 0)
    {
      var nowMatches := false;
      if expr.Some? && labels.Some? {
        nowMatches := Eval(expr.value, labels.value);
        totalEvaluations := totalEvaluations + 1;
      }
      if nowMatches {
        StoreMatch(e, i);
      } else {
        DiscardMatch(e, i);
      }
    }

    /** Where a scan of expression `e` over `labelsByItem` stands once the
        items in `done` are re-evaluated: those pairs are exact, every other
        pair is as in `m0`, and the events since `n0` are the changes so far. */
    ghost predicate LabelScanState(e: ExprId, expr: Option<Expr>, labelsByItem: map<ItemId, Labels>,
                                   m0: OneToMany<ExprId, ItemId>, log0: seq<Event>, t0: nat, done: set<ItemId>)
      reads this
    {
      Valid() && done <= labelsByItem.Keys &&
      (forall i' :: i' in done ==> (Contains(byExpr, e, i') <==> expr.Some? && Eval(expr.value, labelsByItem[i']))) &&
      (forall e', i' :: !(e' == e && i' in done) ==> (Contains(byExpr, e', i') <==> Contains(m0, e', i'))) &&
      |events| >= |log0| && events[..|log0|] == log0 &&
      (forall ev :: ev in events[|log0|..] <==>
        ev.e == e && ev.i in done && Contains(m0, ev.e, ev.i) != Contains(byExpr, ev.e, ev.i) && (ev.Started? <==> Contains(byExpr, ev.e, ev.i))) &&
      totalEvaluations == t0 + (if expr.Some? then |done| else 0)
    }

    /** A label scan starts with nothing re-evaluated. */
    lemma LabelScanStart(e: ExprId, expr: Option<Expr>, labelsByItem: map<ItemId, Labels>)
      requires Valid()
      ensures LabelScanState(e, expr, labelsByItem, byExpr, events, totalEvaluations, {})
    {
      assert events[|events|..] == [];
    }

    /** One step of `_scan_all_labels`. */
    method ScanLabelsStep(e: ExprId, expr: Option<Expr>, labelsByItem: map<ItemId, Labels>, i: ItemId,
                          ghost m0: OneToMany<ExprId, ItemId>, ghost log0: seq<Event>, ghost t0: nat, ghost done: set<ItemId>)
      requires i in labelsByItem && i !in done
      requires LabelScanState(e, expr, labelsByItem, m0, log0, t0, done)
      modifies this
      ensures LabelScanState(e, expr, labelsByItem, m0, log0, t0, done + {i})
    {
      ghost var before := events;
      UpdateMatches(e, expr, i, Some(labelsByItem[i]));
      assert events[|log0|..] == before[|log0|..] + events[|before|..];
    }

    /** `_scan_all_labels`: re-evaluates one expression against every stored
        item. Whatever the iteration order, the events reported are those of the changed pairs. */
    method ScanAllLabels(e: ExprId, expr: Option<Expr>, labelsByItem: map<ItemId, Labels>) returns (ghost done: set<ItemId>)
      requires Valid()
      modifies this
      ensures done == labelsByItem.Keys
      ensures LabelScanState(e, expr, labelsByItem, old(byExpr), old(events), old(totalEvaluations), done)
    {
      ghost var m0 := byExpr;
      ghost var log0 := events;
      ghost var t0 := totalEvaluations;
      var remaining := labelsByItem.Keys;
      done := {};
      LabelScanStart(e, expr, labelsByItem);
      while remaining != {}
        invariant remaining + done == labelsByItem.Keys && remaining !! done
        invariant LabelScanState(e, expr, labelsByItem, m0, log0, t0, done)
        decreases remaining
      {
        var i :| i in remaining;
        ScanLabelsStep(e, expr, labelsByItem, i, m0, log0, t0, done);
        remaining := remaining - {i};
        done := done + {i};
      }
      assert done == labelsByItem.Keys;
    }

    /** Where a scan of the expressions in `exprsById` against item `i`
        stands once the expressions in `done` are re-evaluated. */
    ghost predicate ExprScanState(i: ItemId, labels: Option<Labels>, exprsById: map<ExprId, Expr>,
                                  m0: OneToMany<ExprId, ItemId>, log0: seq<Event>, t0: nat, done: set<ExprId>)
      reads this
    {
      Valid() && done <= exprsById.Keys &&
      (forall e' :: e' in done ==> (Contains(byExpr, e', i) <==> labels.Some? && Eval(exprsById[e'], labels.value))) &&
      (forall e', i' :: !(i' == i && e' in done) ==> (Contains(byExpr, e', i') <==> Contains(m0, e', i'))) &&
      |events| >= |log0| && events[..|log0|] == log0 &&
      (forall ev :: ev in events[|log0|..] <==>
        ev.i == i && ev.e in done && Contains(m0, ev.e, ev.i) != Contains(byExpr, ev.e, ev.i) && (ev.Started? <==> Contains(byExpr, ev.e, ev.i))) &&
      totalEvaluations == t0 + (if labels.Some? then |done| else 0)
    }

    /** An expression scan starts with nothing re-evaluated. */
    lemma ExprScanStart(i: ItemId, labels: Option<Labels>, exprsById: map<ExprId, Expr>)
      requires Valid()
      ensures ExprScanState(i, labels, exprsById, byExpr, events, totalEvaluations, {})
    {
      assert events[|events|..] == [];
    }

    /** One step of `_scan_all_expressions`. */
    method ScanExpressionsStep(i: ItemId, labels: Option<Labels>, exprsById: map<ExprId, Expr>, e: ExprId,
                               ghost m0: OneToMany<ExprId, ItemId>, ghost log0: seq<Event>, ghost t0: nat, ghost done: set<ExprId>)
      requires e in exprsById && e !in done
      requires ExprScanState(i, labels, exprsById, m0, log0, t0, done)
      modifies this
      ensures ExprScanState(i, labels, exprsById, m0, log0, t0, done + {e})
    {
      ghost var before := events;
      UpdateMatches(e, Some(exprsById[e]), i, labels);
      assert events[|log0|..] == before[|log0|..] + events[|before|..];
    }

    /** `_scan_all_expressions`: re-evaluates every stored expression against
        one item's new labels. */
    method ScanAllExpressions(i: ItemId, labels: Option<Labels>, exprsById: map<ExprId, Expr>) returns (ghost done: set<ExprId>)
      requires Valid()
      modifies this
      ensures done == exprsById.Keys
      ensures ExprScanState(i, labels, exprsById, old(byExpr), old(events), old(totalEvaluations), done)
    {
      ghost var m0 := byExpr;
      ghost var log0 := events;
      ghost var t0 := totalEvaluations;
      var remaining := exprsById.Keys;
      done := {};
      ExprScanStart(i, labels, exprsById);
      while remaining != {}
        invariant remaining + done == exprsById.Keys && remaining !! done
        invariant ExprScanState(i, labels, exprsById, m0, log0, t0, done)
        decreases remaining
      {
        var e :| e in remaining;
        ScanExpressionsStep(i, labels, exprsById, e, m0, log0, t0, done);
        remaining := remaining - {e};
        done := done + {e};
      }
      assert done == exprsById.Keys;
    }

    /** Part way through re-deciding the matches of item `i`: the
        expressions in `seen` have their final status (membership of
        `target`), every other pair is as in `m0`, the events since `log0`
        are exactly the changes so far, and evaluations are only counted when
        not `frozen`. */
    ghost predicate RowState(i: ItemId, m0: OneToMany<ExprId, ItemId>, log0: seq<Event>, t0: nat, frozen: bool,
                             seen: set<ExprId>, target: set<ExprId>)
      reads this
    {
      Valid() &&
      (forall e :: e in seen ==> (Contains(byExpr, e, i) <==> e in target)) &&
      (forall e, i' :: !(i' == i && e in seen) ==> (Contains(byExpr, e, i') <==> Contains(m0, e, i'))) &&
      |events| >= |log0| && events[..|log0|] == log0 &&
      (forall ev :: ev in events[|log0|..] <==>
        ev.i == i && ev.e in seen && Contains(m0, ev.e, ev.i) != Contains(byExpr, ev.e, ev.i) && (ev.Started? <==> Contains(byExpr, ev.e, ev.i))) &&
      totalEvaluations >= t0 && (frozen ==> totalEvaluations == t0)
    }

    /** A row update starts with nothing decided. */
    lemma RowStart(i: ItemId, frozen: bool, target: set<ExprId>)
      requires Valid()
      ensures RowState(i, byExpr, events, totalEvaluations, frozen, {}, target)
    {
      assert events[|events|..] == [];
    }

    /** `_update_matches` on one more expression of the row. */
    method RowUpdate(i: ItemId, e: ExprId, expr: Option<Expr>, labels: Option<Labels>,
                     ghost m0: OneToMany<ExprId, ItemId>, ghost log0: seq<Event>, ghost t0: nat, ghost frozen: bool,
                     ghost seen: set<ExprId>, ghost target: set<ExprId>)
      requires e !in seen
      requires (expr.Some? && labels.Some? && Eval(expr.value, labels.value)) <==> e in target
      requires frozen ==> !(expr.Some? && labels.Some?)
      requires RowState(i, m0, log0, t0, frozen, seen, target)
      modifies this
      ensures RowState(i, m0, log0, t0, frozen, seen + {e}, target)
    {
      ghost var before := events;
      UpdateMatches(e, expr, i, labels);
      assert events[|log0|..] == before[|log0|..] + events[|before|..];
    }

    /** `_store_match` on one more expression of the row, known to match. */
    method RowStore(i: ItemId, e: ExprId,
                    ghost m0: OneToMany<ExprId, ItemId>, ghost log0: seq<Event>, ghost t0: nat, ghost frozen: bool,
                    ghost seen: set<ExprId>, ghost target: set<ExprId>)
      requires e !in seen && e in target
      requires RowState(i, m0, log0, t0, frozen, seen, target)
      modifies this
      ensures RowState(i, m0, log0, t0, frozen, seen + {e}, target)
    {
      ghost var before := events;
      StoreMatch(e, i);
      assert events[|log0|..] == before[|log0|..] + events[|before|..];
    }

    /** The same, for the matches of expression `e` (a column). */
    ghost predicate ColState(e: ExprId, m0: OneToMany<ExprId, ItemId>, log0: seq<Event>, t0: nat, frozen: bool,
                             seen: set<ItemId>, target: set<ItemId>)
      reads this
    {
      Valid() &&
      (forall i :: i in seen ==> (Contains(byExpr, e, i) <==> i in target)) &&
      (forall e', i :: !(e' == e && i in seen) ==> (Contains(byExpr, e', i) <==> Contains(m0, e', i))) &&
      |events| >= |log0| && events[..|log0|] == log0 &&
      (forall ev :: ev in events[|log0|..] <==>
        ev.e == e && ev.i in seen && Contains(m0, ev.e, ev.i) != Contains(byExpr, ev.e, ev.i) && (ev.Started? <==> Contains(byExpr, ev.e, ev.i))) &&
      totalEvaluations >= t0 && (frozen ==> totalEvaluations == t0)
    }

    /** A column update starts with nothing decided. */
    lemma ColStart(e: ExprId, frozen: bool, target: set<ItemId>)
      requires Valid()
      ensures ColState(e, byExpr, events, totalEvaluations, frozen, {}, target)
    {
      assert events[|events|..] == [];
    }

    method ColUpdate(e: ExprId, i: ItemId, expr: Option<Expr>, labels: Option<Labels>,
                     ghost m0: OneToMany<ExprId, ItemId>, ghost log0: seq<Event>, ghost t0: nat, ghost frozen: bool,
                     ghost seen: set<ItemId>, ghost target: set<ItemId>)
      requires i !in seen
      requires (expr.Some? && labels.Some? && Eval(expr.value, labels.value)) <==> i in target
      requires frozen ==> !(expr.Some? && labels.Some?)
      requires ColState(e, m0, log0, t0, frozen, seen, target)
      modifies this
      ensures ColState(e, m0, log0, t0, frozen, seen + {i}, target)
    {
      ghost var before := events;
      UpdateMatches(e, expr, i, labels);
      assert events[|log0|..] == before[|log0|..] + events[|before|..];
    }

    method ColStore(e: ExprId, i: ItemId,
                    ghost m0: OneToMany<ExprId, ItemId>, ghost log0: seq<Event>, ghost t0: nat, ghost frozen: bool,
                    ghost seen: set<ItemId>, ghost target: set<ItemId>)
      requires i in target
      requires ColState(e, m0, log0, t0, frozen, seen, target)
      modifies this
      ensures ColState(e, m0, log0, t0, frozen, seen + {i}, target)
    {
      ghost var before := events;
      StoreMatch(e, i);
      if i in seen {
        assert events == before;
      } else {
        assert events[|log0|..] == before[|log0|..] + events[|before|..];
      }
    }

    method ColDiscard(e: ExprId, i: ItemId,
                      ghost m0: OneToMany<ExprId, ItemId>, ghost log0: seq<Event>, ghost t0: nat, ghost frozen: bool,
                      ghost seen: set<ItemId>, ghost target: set<ItemId>)
      requires i !in seen && i !in target
      requires ColState(e, m0, log0, t0, frozen, seen, target)
      modifies this
      ensures ColState(e, m0, log0, t0, frozen, seen + {i}, target)
    {
      ghost var before := events;
      DiscardMatch(e, i);
      assert events[|log0|..] == before[|log0|..] + events[|before|..];
    }

    /** The column of `e` is finished: every item outside `seen` neither
        matched before nor should match now. */
    ghost predicate ColDone(e: ExprId, m0: OneToMany<ExprId, ItemId>, log0: seq<Event>, t0: nat, frozen: bool,
                            seen: set<ItemId>, target: set<ItemId>)
      reads this
    {
      ColState(e, m0, log0, t0, frozen, seen, target) &&
      forall i :: i !in seen ==> !Contains(m0, e, i) && i !in target
    }

    /** The loop that discards the old matches of `e` left over once every
        new match is in `seen`. */
    method DiscardLeftovers(e: ExprId, leftovers: set<ItemId>,
                            ghost m0: OneToMany<ExprId, ItemId>, ghost log0: seq<Event>, ghost t0: nat,
                            ghost seen0: set<ItemId>, ghost target: set<ItemId>) returns (ghost seen: set<ItemId>)
      requires ColState(e, m0, log0, t0, true, seen0, target) && target <= seen0
      requires leftovers == Values(m0, e) - seen0
      modifies this
      ensures ColDone(e, m0, log0, t0, true, seen, target)
    {
      seen := seen0;
      var todo := leftovers;
      while todo != {}
        invariant todo <= leftovers
        invariant ColState(e, m0, log0, t0, true, seen, target) && target <= seen
        invariant todo !! seen && Values(m0, e) <= seen + todo
        decreases todo
      {
        var i :| i in todo;
        ColDiscard(e, i, m0, log0, t0, true, seen, target);
        seen := seen + {i};
        todo := todo - {i};
      }
    }
  }

  /** The headline property: (e, i) is recorded exactly when both are stored
      and e evaluates true on i's labels. */
  ghost predicate MatchesExactly(m: MatchIndex, exprs: map<ExprId, Expr>, labels: map<ItemId, Labels>)
    reads m
  {
    forall e, i :: m.Matched(e, i) <==> e in exprs && i in labels && Eval(exprs[e], labels[i])
  }

  /** A row recomputed against new labels for item `i`, every other row
      kept: the index again holds exactly the true (expression, item) pairs. */
  lemma RowReplaced(byExpr: OneToMany<ExprId, ItemId>, m0: OneToMany<ExprId, ItemId>, exprs: map<ExprId, Expr>,
                    labels0: map<ItemId, Labels>, labels: map<ItemId, Labels>, i: ItemId, target: set<ExprId>)
    requires forall e, i' :: Contains(m0, e, i') <==> e in exprs && i' in labels0 && Eval(exprs[e], labels0[i'])
    requires forall e :: Contains(byExpr, e, i) <==> e in target
    requires forall e :: e in target <==> e in exprs && i in labels && Eval(exprs[e], labels[i])
    requires forall e, i' :: i' != i ==> (Contains(byExpr, e, i') <==> Contains(m0, e, i'))
    requires labels - {i} == labels0 - {i}
    ensures forall e, i' :: Contains(byExpr, e, i') <==> e in exprs && i' in labels && Eval(exprs[e], labels[i'])
  {
    forall e, i' | i' != i ensures Contains(byExpr, e, i') <==> e in exprs && i' in labels && Eval(exprs[e], labels[i']) {
      assert (i' in labels <==> i' in labels - {i}) && (i' in labels0 <==> i' in labels0 - {i});
      if i' in labels { assert labels[i'] == (labels - {i})[i'] == labels0[i']; }
    }
  }

  /** The pair index with the row of item `i` rebuilt from its new labels,
      every other row kept, indexes the new labels. */
  lemma KVRowReplaced(idx: OneToMany<KV, ItemId>, idx0: OneToMany<KV, ItemId>,
                      labels0: map<ItemId, Labels>, labels: map<ItemId, Labels>, i: ItemId)
    requires KVIndexed(idx0, labels0)
    requires forall kv :: Contains(idx, kv, i) <==> i in labels && Holds(kv, labels[i])
    requires forall kv, i' :: i' != i ==> (Contains(idx, kv, i') <==> Contains(idx0, kv, i'))
    requires labels - {i} == labels0 - {i}
    ensures KVIndexed(idx, labels)
  {
    forall kv, i' | i' != i ensures Contains(idx, kv, i') <==> i' in labels && Holds(kv, labels[i']) {
      assert (i' in labels <==> i' in labels - {i}) && (i' in labels0 <==> i' in labels0 - {i});
      if i' in labels { assert labels[i'] == (labels - {i})[i'] == labels0[i']; }
    }
  }

  /** The loop discarding `i` under each of its old parents. */
  method DiscardAll<K(!new), V(!new)>(m: OneToMany<K, V>, ks: seq<K>, v: V) returns (r: OneToMany<K, V>)
    ensures forall k, v' :: v' != v ==> (Contains(r, k, v') <==> Contains(m, k, v'))
    ensures forall k :: Contains(r, k, v) <==> Contains(m, k, v) && k !in ks
  {
    r := m;
    var n := 0;
    while n < |ks|
      invariant 0 <= n <= |ks|
      invariant forall k, v' :: v' != v ==> (Contains(r, k, v') <==> Contains(m, k, v'))
      invariant forall k :: Contains(r, k, v) <==> Contains(m, k, v) && k !in ks[..n]
    {
      assert ks[..n + 1] == ks[..n] + [ks[n]];
      r := DiscardFrom(r, ks[n], v);
      n := n + 1;
    }
    assert ks[..n] == ks;
  }

  /** The loop adding `i` under each of its new parents. */
  method AddAll<K(!new), V(!new)>(m: OneToMany<K, V>, ks: seq<K>, v: V) returns (r: OneToMany<K, V>)
    ensures forall k, v' :: v' != v ==> (Contains(r, k, v') <==> Contains(m, k, v'))
    ensures forall k :: Contains(r, k, v) <==> Contains(m, k, v) || k in ks
  {
    r := m;
    var n := 0;
    while n < |ks|
      invariant 0 <= n <= |ks|
      invariant forall k, v' :: v' != v ==> (Contains(r, k, v') <==> Contains(m, k, v'))
      invariant forall k :: Contains(r, k, v) <==> Contains(m, k, v) || k in ks[..n]
    {
      assert ks[..n + 1] == ks[..n] + [ks[n]];
      r := AddTo(r, ks[n], v);
      n := n + 1;
    }
    assert ks[..n] == ks;
  }

  /** One map lists, under each parent, the items whose parent list (in the
      other map) names it. */
  ghost predicate Inverse<K(!new), V(!new)>(byParent: OneToMany<K, V>, parentsOf: map<V, seq<K>>)
  {
    forall p, i :: Contains(byParent, p, i) <==> i in parentsOf && p in parentsOf[i]
  }

  /** Moves `i` from the parents `parentsOf` lists for it to `parents`. */
  method ReindexParents<K(!new), V(!new)>(byParent: OneToMany<K, V>, parentsOf: map<V, seq<K>>, i: V, parents: Option<seq<K>>)
    returns (r: OneToMany<K, V>)
    requires Inverse(byParent, parentsOf)
    ensures parents.Some? ==> Inverse(r, parentsOf[i := parents.value])
    ensures parents.None? ==> Inverse(r, parentsOf - {i})
  {
    r := byParent;
    var oldParents := Lookup(parentsOf, i);
    if oldParents.Some? && oldParents.value != [] {
      r := DiscardAll(r, oldParents.value, i);
    }
    assert forall p :: !Contains(r, p, i);
    if parents.Some? {
      r := AddAll(r, parents.value, i);
    }
  }

  // ---------------------------------------------------------------------
  // The baseline index

  /** `LinearScanLabelIndex`: every update is a full scan. */
  class LinearScanLabelIndex {
    var labelsByItem: map<ItemId, Labels>
    var exprsById: map<ExprId, Expr>
    const matches: MatchIndex

    ghost predicate Valid()
      reads this, matches
    {
      matches.Valid() && MatchesExactly(matches, exprsById, labelsByItem)
    }

    constructor ()
      ensures Valid() && fresh(matches)
      ensures labelsByItem == map[] && exprsById == map[] && matches.events == []
    {
      labelsByItem := map[];
      exprsById := map[];
      matches := new MatchIndex();
    }

    /** `on_expression_update`: a full label scan, then the expression is
        stored, or removed when it is None. */
    method OnExpressionUpdate(e: ExprId, expr: Option<Expr>)
      requires Valid()
      modifies this, matches
      ensures Valid()
      ensures exprsById == if expr.Some? then old(exprsById)[e := expr.value] else old(exprsById) - {e}
      ensures labelsByItem == old(labelsByItem)
      ensures |matches.events| >= |old(matches.events)| && matches.events[..|old(matches.events)|] == old(matches.events)
      ensures forall ev :: ev in matches.events[|old(matches.events)|..] <==>
        old(matches.Matched(ev.e, ev.i)) != matches.Matched(ev.e, ev.i) && (ev.Started? <==> matches.Matched(ev.e, ev.i))
      ensures matches.totalEvaluations == old(matches.totalEvaluations) + (if expr.Some? then |labelsByItem| else 0)
    {
      ghost var m0 := matches.byExpr;
      ghost var log0 := matches.events;
      ghost var exprs0 := exprsById;
      ExactAsRelation(matches, exprs0, labelsByItem);
      ghost var done := matches.ScanAllLabels(e, expr, labelsByItem);
      if expr.Some? {
        exprsById := exprsById[e := expr.value];
      } else {
        exprsById := exprsById - {e};
      }
      ColumnRescanned(m0, matches.byExpr, exprs0, labelsByItem, e, expr);
      RelationAsExact(matches, exprsById, labelsByItem);
      ColumnEvents(m0, matches.byExpr, log0, matches.events, e, labelsByItem.Keys);
    }

    /** `on_labels_update`: a full expression scan, then the labels are
        stored, or removed when they are None. */
    method OnLabelsUpdate(i: ItemId, labels: Option<Labels>)
      requires Valid()
      modifies this, matches
      ensures Valid()
      ensures labelsByItem == if labels.Some? then old(labelsByItem)[i := labels.value] else old(labelsByItem) - {i}
      ensures exprsById == old(exprsById)
      ensures |matches.events| >= |old(matches.events)| && matches.events[..|old(matches.events)|] == old(matches.events)
      ensures forall ev :: ev in matches.events[|old(matches.events)|..] <==>
        old(matches.Matched(ev.e, ev.i)) != matches.Matched(ev.e, ev.i) && (ev.Started? <==> matches.Matched(ev.e, ev.i))
      ensures matches.totalEvaluations == old(matches.totalEvaluations) + (if labels.Some? then |exprsById| else 0)
    {
      ghost var m0 := matches.byExpr;
      ghost var log0 := matches.events;
      ghost var labels0 := labelsByItem;
      ExactAsRelation(matches, exprsById, labels0);
      ghost var done := matches.ScanAllExpressions(i, labels, exprsById);
      if labels.Some? {
        labelsByItem := labelsByItem[i := labels.value];
      } else {
        labelsByItem := labelsByItem - {i};
      }
      RowRescanned(m0, matches.byExpr, exprsById, labels0, i, labels);
      RelationAsExact(matches, exprsById, labelsByItem);
      RowEvents(m0, matches.byExpr, log0, matches.events, i, exprsById.Keys);
    }
  }

  /** After a full scan of expression `e`, stored as `expr` or removed, the
      relation is exact for the new expressions. */
  lemma ColumnRescanned(m0: OneToMany<ExprId, ItemId>, m1: OneToMany<ExprId, ItemId>,
                        exprs0: map<ExprId, Expr>, labels: map<ItemId, Labels>, e: ExprId, expr: Option<Expr>)
    requires forall e', i :: Contains(m0, e', i) <==> e' in exprs0 && i in labels && Eval(exprs0[e'], labels[i])
    requires forall i :: i in labels ==> (Contains(m1, e, i) <==> expr.Some? && Eval(expr.value, labels[i]))
    requires forall e', i :: !(e' == e && i in labels) ==> (Contains(m1, e', i) <==> Contains(m0, e', i))
    ensures var exprs1 := if expr.Some? then exprs0[e := expr.value] else exprs0 - {e};
      forall e', i :: Contains(m1, e', i) <==> e' in exprs1 && i in labels && Eval(exprs1[e'], labels[i])
  {
  }

  /** After a full scan of item `i`, stored as `l` or removed, the relation
      is exact for the new labels. */
  lemma RowRescanned(m0: OneToMany<ExprId, ItemId>, m1: OneToMany<ExprId, ItemId>,
                     exprs: map<ExprId, Expr>, labels0: map<ItemId, Labels>, i: ItemId, l: Option<Labels>)
    requires forall e, i' :: Contains(m0, e, i') <==> e in exprs && i' in labels0 && Eval(exprs[e], labels0[i'])
    requires forall e :: e in exprs ==> (Contains(m1, e, i) <==> l.Some? && Eval(exprs[e], l.value))
    requires forall e, i' :: !(i' == i && e in exprs) ==> (Contains(m1, e, i') <==> Contains(m0, e, i'))
    ensures var labels1 := if l.Some? then labels0[i := l.value] else labels0 - {i};
      forall e, i' :: Contains(m1, e, i') <==> e in exprs && i' in labels1 && Eval(exprs[e], labels1[i'])
  {
  }

  /** The events of a row update are exactly the changed pairs. */
  lemma RowEvents(m0: OneToMany<ExprId, ItemId>, m1: OneToMany<ExprId, ItemId>, log0: seq<Event>, log1: seq<Event>,
                  i: ItemId, seen: set<ExprId>)
    requires |log1| >= |log0|
    requires forall e', i' :: !(i' == i && e' in seen) ==> (Contains(m1, e', i') <==> Contains(m0, e', i'))
    requires forall ev :: ev in log1[|log0|..] <==>
      ev.i == i && ev.e in seen && Contains(m0, ev.e, ev.i) != Contains(m1, ev.e, ev.i) && (ev.Started? <==> Contains(m1, ev.e, ev.i))
    ensures forall ev :: ev in log1[|log0|..] <==>
      Contains(m0, ev.e, ev.i) != Contains(m1, ev.e, ev.i) && (ev.Started? <==> Contains(m1, ev.e, ev.i))
  {
  }

  // ---------------------------------------------------------------------
  // The label-value index

  /** `a == "b"` and `a in {...}`: the expressions answered by a lookup. */
  predicate IsLiteral(x: Expr)
  {
    x.LabelEq? || x.LabelIn?
  }

  /** The values a literal expression accepts for its label. */
  function LiteralValues(x: Expr): (r: set<string>)
    requires IsLiteral(x)
    ensures x.LabelEq? ==> r == {x.value}
  {
    if x.LabelEq? then {x.value} else x.values
  }

  /** The pair `kv` is one under which the literal expression `x` is indexed. */
  predicate LiteralFor(x: Expr, kv: KV)
  {
    IsLiteral(x) && kv.0 == x.key && kv.1 in LiteralValues(x)
  }

  /** A literal expression matches exactly the labels holding one of the
      pairs it is indexed under. */
  lemma LiteralEval(x: Expr, labels: Labels)
    requires IsLiteral(x)
    ensures Eval(x, labels) <==> exists kv :: LiteralFor(x, kv) && Holds(kv, labels)
  {
    if Eval(x, labels) {
      assert LiteralFor(x, (x.key, labels[x.key])) && Holds((x.key, labels[x.key]), labels);
    }
  }

  /** `item_ids_by_key_value[(k, v)]` holds exactly the items whose labels
      have k == v. */
  ghost predicate KVIndexed(idx: OneToMany<KV, ItemId>, labelsByItem: map<ItemId, Labels>)
  {
    forall kv, i :: Contains(idx, kv, i) <==> i in labelsByItem && Holds(kv, labelsByItem[i])
  }

  /** `kv_to_literal_expr[(k, v)]` holds exactly the literal expressions
      that accept k == v. */
  ghost predicate LiteralsIndexed(idx: OneToMany<KV, ExprId>, exprsById: map<ExprId, Expr>)
  {
    forall kv, e :: Contains(idx, kv, e) <==> e in exprsById && LiteralFor(exprsById[e], kv)
  }

  /** `non_kv_expressions_by_id` holds exactly the other expressions. */
  ghost predicate NonKvSplit(nonKv: map<ExprId, Expr>, exprsById: map<ExprId, Expr>)
  {
    (forall e :: e in nonKv <==> e in exprsById && !IsLiteral(exprsById[e])) &&
    (forall e :: e in nonKv ==> nonKv[e] == exprsById[e])
  }

  /** Replacing the column of `e` by `target`, the matches of the new
      expression, keeps the relation exact. */
  lemma ColumnReplaced(m0: OneToMany<ExprId, ItemId>, m1: OneToMany<ExprId, ItemId>,
                       exprs0: map<ExprId, Expr>, exprs1: map<ExprId, Expr>, labels: map<ItemId, Labels>,
                       e: ExprId, target: set<ItemId>, seen: set<ItemId>)
    requires forall e', i :: Contains(m0, e', i) <==> e' in exprs0 && i in labels && Eval(exprs0[e'], labels[i])
    requires forall e', i :: !(e' == e && i in seen) ==> (Contains(m1, e', i) <==> Contains(m0, e', i))
    requires forall i :: i in seen ==> (Contains(m1, e, i) <==> i in target)
    requires forall i :: i !in seen ==> !Contains(m0, e, i) && i !in target
    requires forall i :: i in target <==> e in exprs1 && i in labels && Eval(exprs1[e], labels[i])
    requires forall e' :: e' != e ==> (e' in exprs1 <==> e' in exprs0)
    requires forall e' :: e' != e && e' in exprs1 ==> exprs1[e'] == exprs0[e']
    ensures forall e', i :: Contains(m1, e', i) <==> e' in exprs1 && i in labels && Eval(exprs1[e'], labels[i])
  {
    forall e', i ensures Contains(m1, e', i) <==> e' in exprs1 && i in labels && Eval(exprs1[e'], labels[i]) {
      if e' == e {
        if i !in seen {
          assert !Contains(m1, e', i);
        }
      }
    }
  }

  /** The events of a column update are exactly the changed pairs. */
  lemma ColumnEvents(m0: OneToMany<ExprId, ItemId>, m1: OneToMany<ExprId, ItemId>, log0: seq<Event>, log1: seq<Event>,
                     e: ExprId, seen: set<ItemId>)
    requires |log1| >= |log0|
    requires forall e', i :: !(e' == e && i in seen) ==> (Contains(m1, e', i) <==> Contains(m0, e', i))
    requires forall ev :: ev in log1[|log0|..] <==>
      ev.e == e && ev.i in seen && Contains(m0, ev.e, ev.i) != Contains(m1, ev.e, ev.i) && (ev.Started? <==> Contains(m1, ev.e, ev.i))
    ensures forall ev :: ev in log1[|log0|..] <==>
      Contains(m0, ev.e, ev.i) != Contains(m1, ev.e, ev.i) && (ev.Started? <==> Contains(m1, ev.e, ev.i))
  {
  }

  /** `LabelValueIndex`: the baseline index plus an index of label values,
      so that literal expressions are answered by lookups and expressions
      with a required pair only scan the items that have it. Its matches are
      those of the linear scan. */
  class LabelValueIndex {
    var labelsByItem: map<ItemId, Labels>
    var exprsById: map<ExprId, Expr>
    const matches: MatchIndex
    var itemsByKV: OneToMany<KV, ItemId>
    var kvToLiteral: OneToMany<KV, ExprId>
    var nonKvExprs: map<ExprId, Expr>

    ghost predicate Valid()
      reads this, matches
    {
      matches.Valid() && MatchesExactly(matches, exprsById, labelsByItem) &&
      KVIndexed(itemsByKV, labelsByItem) && LiteralsIndexed(kvToLiteral, exprsById) &&
      NonKvSplit(nonKvExprs, exprsById)
    }

    constructor ()
      ensures Valid() && fresh(matches)
      ensures labelsByItem == map[] && exprsById == map[] && matches.events == []
    {
      labelsByItem := map[];
      exprsById := map[];
      matches := new MatchIndex();
      itemsByKV := map[];
      kvToLiteral := map[];
      nonKvExprs := map[];
    }

    /** `_find_best_index`: a required pair with fewer than 10 items, or
        failing that the one with fewest; None when nothing is required. */
    method FindBestIndex(required: set<KV>) returns (r: Option<KV>)
      ensures r.None? <==> required == {}
      ensures r.Some? ==> r.value in required
      ensures r.Some? ==> (NumItems(itemsByKV, r.value) < 10 ||
                           forall kv :: kv in required ==> NumItems(itemsByKV, r.value) <= NumItems(itemsByKV, kv))
    {
      r := None;
      var minNum := 0;
      var remaining := required;
      while remaining != {}
        invariant remaining <= required
        invariant r.None? <==> remaining == required
        invariant r.Some? ==> r.value in required && minNum == NumItems(itemsByKV, r.value)
        invariant r.Some? ==> forall kv :: kv in required - remaining ==> minNum <= NumItems(itemsByKV, kv)
        decreases remaining
      {
        var kv :| kv in remaining;
        var num := NumItems(itemsByKV, kv);
        if r.None? || num < minNum {
          r := Some(kv);
          minNum := num;
          if num < 10 {
            return;
          }
        }
        remaining := remaining - {kv};
      }
    }

    /** `on_labels_update`, first loop: the item leaves the index under every
        old pair its new labels do not keep. */
    method DropStalePairs(i: ItemId, newLabels: Option<Labels>)
      requires KVIndexed(itemsByKV, labelsByItem)
      modifies this
      ensures forall kv :: Contains(itemsByKV, kv, i) <==>
        i in labelsByItem && Holds(kv, labelsByItem[i]) && newLabels.Some? && Holds(kv, newLabels.value)
      ensures forall kv, i' :: i' != i ==> (Contains(itemsByKV, kv, i') <==> Contains(old(itemsByKV), kv, i'))
      ensures labelsByItem == old(labelsByItem) && exprsById == old(exprsById)
      ensures kvToLiteral == old(kvToLiteral) && nonKvExprs == old(nonKvExprs)
    {
      var oldLabels: Labels := if i in labelsByItem then labelsByItem[i] else map[];
      ghost var m0 := itemsByKV;
      var remaining := oldLabels.Keys;
      ghost var done: set<string> := {};
      while remaining != {}
        invariant remaining + done == oldLabels.Keys && remaining !! done
        invariant forall kv: KV :: kv.0 in done ==> (Contains(itemsByKV, kv, i) <==>
          Holds(kv, oldLabels) && newLabels.Some? && Holds(kv, newLabels.value))
        invariant forall kv: KV :: kv.0 !in done ==> (Contains(itemsByKV, kv, i) <==> Contains(m0, kv, i))
        invariant forall kv, i' :: i' != i ==> (Contains(itemsByKV, kv, i') <==> Contains(m0, kv, i'))
        invariant labelsByItem == old(labelsByItem) && exprsById == old(exprsById)
        invariant kvToLiteral == old(kvToLiteral) && nonKvExprs == old(nonKvExprs)
        decreases remaining
      {
        var k :| k in remaining;
        var v := oldLabels[k];
        if newLabels.None? || LabelValue(newLabels.value, k) != Present(v) {
          itemsByKV := DiscardFrom(itemsByKV, (k, v), i);
        }
        remaining := remaining - {k};
        done := done + {k};
      }
    }

    /** `on_labels_update`, second loop: every expression the item matched
        is re-evaluated, and remembered as seen. */
    method RecheckOldMatches(i: ItemId, newLabels: Option<Labels>, ghost target: set<ExprId>) returns (seen: set<ExprId>)
      requires matches.Valid() && MatchesExactly(matches, exprsById, labelsByItem)
      requires forall e :: e in target <==> e in exprsById && newLabels.Some? && Eval(exprsById[e], newLabels.value)
      modifies matches
      ensures matches.RowState(i, old(matches.byExpr), old(matches.events), old(matches.totalEvaluations), newLabels.None?, seen, target)
      ensures forall e :: e !in seen ==> !Contains(old(matches.byExpr), e, i)
    {
      ghost var m0 := matches.byExpr;
      ghost var log0 := matches.events;
      ghost var t0 := matches.totalEvaluations;
      var oldMatches := Values(matches.byItem, i);
      assert forall e :: e in oldMatches ==> matches.Matched(e, i);
      seen := {};
      matches.RowStart(i, newLabels.None?, target);
      var remaining := oldMatches;
      while remaining != {}
        invariant remaining + seen == oldMatches && remaining !! seen
        invariant forall e :: e in oldMatches ==> Contains(m0, e, i) && e in exprsById
        invariant matches.RowState(i, m0, log0, t0, newLabels.None?, seen, target)
        decreases remaining
      {
        var e :| e in remaining;
        matches.RowUpdate(i, e, Some(exprsById[e]), newLabels, m0, log0, t0, newLabels.None?, seen, target);
        seen := seen + {e};
        remaining := remaining - {e};
      }
      forall e | e !in seen ensures !Contains(m0, e, i) {
        assert !Contains(matches.byItem, i, e);
      }
    }

    /** The inner loop of `on_labels_update`'s third loop: each of the
        literal expressions indexed under one pair is stored as a match of
        the row, without evaluation. */
    method StoreRowLiterals(i: ItemId, literals: set<ExprId>, seen0: set<ExprId>,
                            ghost m0: OneToMany<ExprId, ItemId>, ghost log0: seq<Event>, ghost t0: nat,
                            ghost target: set<ExprId>) returns (seen: set<ExprId>)
      requires literals <= target
      requires matches.RowState(i, m0, log0, t0, false, seen0, target)
      modifies matches
      ensures matches.RowState(i, m0, log0, t0, false, seen, target) && seen == seen0 + literals
    {
      seen := seen0;
      var todo := literals;
      while todo != {}
        invariant todo <= literals
        invariant matches.RowState(i, m0, log0, t0, false, seen, target)
        invariant seen == seen0 + (literals - todo)
        decreases todo
      {
        var e :| e in todo;
        if e !in seen {
          matches.RowStore(i, e, m0, log0, t0, false, seen, target);
          seen := seen + {e};
        }
        todo := todo - {e};
      }
    }

    /** `on_labels_update`, third loop: the item enters the index under each
        new pair, and every literal expression accepting that pair, not yet
        seen, is stored as a match without evaluation. */
    method AddNewPairs(i: ItemId, newLabels: Labels, seen0: set<ExprId>,
                       ghost m0: OneToMany<ExprId, ItemId>, ghost log0: seq<Event>, ghost t0: nat,
                       ghost target: set<ExprId>) returns (seen: set<ExprId>)
      requires forall e :: e in target <==> e in exprsById && Eval(exprsById[e], newLabels)
      requires LiteralsIndexed(kvToLiteral, exprsById)
      requires forall kv :: Contains(itemsByKV, kv, i) ==> Holds(kv, newLabels)
      requires matches.RowState(i, m0, log0, t0, false, seen0, target)
      modifies this, matches
      ensures matches.RowState(i, m0, log0, t0, false, seen, target) && seen0 <= seen
      ensures forall e :: e in target && e in exprsById && IsLiteral(exprsById[e]) ==> e in seen
      ensures forall kv :: Contains(itemsByKV, kv, i) <==> Holds(kv, newLabels)
      ensures forall kv, i' :: i' != i ==> (Contains(itemsByKV, kv, i') <==> Contains(old(itemsByKV), kv, i'))
      ensures labelsByItem == old(labelsByItem) && exprsById == old(exprsById)
      ensures kvToLiteral == old(kvToLiteral) && nonKvExprs == old(nonKvExprs)
    {
      seen := seen0;
      ghost var idx0 := itemsByKV;
      var remaining := newLabels.Keys;
      ghost var done: set<string> := {};
      while remaining != {}
        invariant remaining + done == newLabels.Keys && remaining !! done
        invariant matches.RowState(i, m0, log0, t0, false, seen, target) && seen0 <= seen
        invariant forall e :: e in target && e in exprsById && IsLiteral(exprsById[e]) && exprsById[e].key in done ==> e in seen
        invariant forall kv: KV :: Contains(itemsByKV, kv, i) <==> Contains(idx0, kv, i) || (kv.0 in done && Holds(kv, newLabels))
        invariant forall kv, i' :: i' != i ==> (Contains(itemsByKV, kv, i') <==> Contains(idx0, kv, i'))
        invariant labelsByItem == old(labelsByItem) && exprsById == old(exprsById)
        invariant kvToLiteral == old(kvToLiteral) && nonKvExprs == old(nonKvExprs)
        decreases remaining
      {
        var k :| k in remaining;
        var kv := (k, newLabels[k]);
        itemsByKV := AddTo(itemsByKV, kv, i);
        var literals := Values(kvToLiteral, kv);
        forall e | e in literals ensures e in target {
          LiteralEval(exprsById[e], newLabels);
          assert LiteralFor(exprsById[e], kv);
        }
        seen := StoreRowLiterals(i, literals, seen, m0, log0, t0, target);
        forall e | e in target && e in exprsById && IsLiteral(exprsById[e]) && exprsById[e].key == k ensures e in seen {
          LiteralEval(exprsById[e], newLabels);
          assert LiteralFor(exprsById[e], kv);
        }
        remaining := remaining - {k};
        done := done + {k};
      }
      forall e | e in target && e in exprsById && IsLiteral(exprsById[e]) ensures e in seen {
        LiteralEval(exprsById[e], newLabels);
      }
    }

    /** `on_labels_update`, last loop: the expressions that are not literal
        and not yet seen are evaluated against the new labels. */
    method RecheckNonKv(i: ItemId, newLabels: Option<Labels>, seen: set<ExprId>,
                        ghost m0: OneToMany<ExprId, ItemId>, ghost log0: seq<Event>, ghost t0: nat,
                        ghost target: set<ExprId>)
      requires forall e :: e in target <==> e in exprsById && newLabels.Some? && Eval(exprsById[e], newLabels.value)
      requires NonKvSplit(nonKvExprs, exprsById)
      requires matches.RowState(i, m0, log0, t0, newLabels.None?, seen, target)
      modifies matches
      ensures matches.RowState(i, m0, log0, t0, newLabels.None?, seen + nonKvExprs.Keys, target)
    {
      var remaining := nonKvExprs.Keys;
      ghost var done: set<ExprId> := {};
      while remaining != {}
        invariant remaining + done == nonKvExprs.Keys && remaining !! done
        invariant matches.RowState(i, m0, log0, t0, newLabels.None?, seen + done, target)
        decreases remaining
      {
        var e :| e in remaining;
        if e !in seen {
          matches.RowUpdate(i, e, Some(nonKvExprs[e]), newLabels, m0, log0, t0, newLabels.None?, seen + done, target);
          assert seen + done + {e} == seen + (done + {e});
        } else {
          assert seen + done == seen + (done + {e});
        }
        remaining := remaining - {e};
        done := done + {e};
      }
    }

    /** `on_labels_update`: the four loops, then the labels are stored, or
        removed when they are None. */
    method OnLabelsUpdate(i: ItemId, newLabels: Option<Labels>)
      requires Valid()
      modifies this, matches
      ensures Valid()
      ensures labelsByItem == if newLabels.Some? then old(labelsByItem)[i := newLabels.value] else old(labelsByItem) - {i}
      ensures exprsById == old(exprsById)
      ensures |matches.events| >= |old(matches.events)| && matches.events[..|old(matches.events)|] == old(matches.events)
      ensures forall ev :: ev in matches.events[|old(matches.events)|..] <==>
        old(matches.Matched(ev.e, ev.i)) != matches.Matched(ev.e, ev.i) && (ev.Started? <==> matches.Matched(ev.e, ev.i))
      ensures matches.totalEvaluations >= old(matches.totalEvaluations)
      ensures newLabels.None? ==> matches.totalEvaluations == old(matches.totalEvaluations)
    {
      ghost var target := set e | e in exprsById && newLabels.Some? && Eval(exprsById[e], newLabels.value);
      ghost var m0 := matches.byExpr;
      ghost var labels0 := labelsByItem;
      ghost var kv0 := itemsByKV;
      assert forall e, i' :: Contains(m0, e, i') <==> e in exprsById && i' in labels0 && Eval(exprsById[e], labels0[i']) by {
        forall e, i' ensures Contains(m0, e, i') <==> e in exprsById && i' in labels0 && Eval(exprsById[e], labels0[i']) {
          assert matches.Matched(e, i') == Contains(m0, e, i');
        }
      }
      RecomputeRow(i, newLabels, target);
      if newLabels.Some? {
        labelsByItem := labelsByItem[i := newLabels.value];
      } else {
        labelsByItem := labelsByItem - {i};
      }
      assert labelsByItem - {i} == labels0 - {i};
      RowReplaced(matches.byExpr, m0, exprsById, labels0, labelsByItem, i, target);
      KVRowReplaced(itemsByKV, kv0, labels0, labelsByItem, i);
    }

    /** The four loops of `on_labels_update`: afterwards the row of `i` holds
        exactly the expressions true on the new labels, every other row is
        as it was, the events are exactly the changed pairs, and the pair
        index holds the new labels' pairs under `i`. */
    method RecomputeRow(i: ItemId, newLabels: Option<Labels>, ghost target: set<ExprId>)
      requires Valid()
      requires forall e :: e in target <==> e in exprsById && newLabels.Some? && Eval(exprsById[e], newLabels.value)
      modifies this, matches
      ensures matches.Valid()
      ensures forall e :: Contains(matches.byExpr, e, i) <==> e in target
      ensures forall e, i' :: i' != i ==> (Contains(matches.byExpr, e, i') <==> Contains(old(matches.byExpr), e, i'))
      ensures |matches.events| >= |old(matches.events)| && matches.events[..|old(matches.events)|] == old(matches.events)
      ensures forall ev :: ev in matches.events[|old(matches.events)|..] <==>
        Contains(old(matches.byExpr), ev.e, ev.i) != Contains(matches.byExpr, ev.e, ev.i) && (ev.Started? <==> Contains(matches.byExpr, ev.e, ev.i))
      ensures matches.totalEvaluations >= old(matches.totalEvaluations)
      ensures newLabels.None? ==> matches.totalEvaluations == old(matches.totalEvaluations)
      ensures forall kv :: Contains(itemsByKV, kv, i) <==> newLabels.Some? && Holds(kv, newLabels.value)
      ensures forall kv, i' :: i' != i ==> (Contains(itemsByKV, kv, i') <==> Contains(old(itemsByKV), kv, i'))
      ensures labelsByItem == old(labelsByItem) && exprsById == old(exprsById)
      ensures kvToLiteral == old(kvToLiteral) && nonKvExprs == old(nonKvExprs)
    {
      ghost var m0 := matches.byExpr;
      ghost var log0 := matches.events;
      ghost var t0 := matches.totalEvaluations;
      DropStalePairs(i, newLabels);
      var seen := RecheckOldMatches(i, newLabels, target);
      ghost var oldSeen := seen;
      if newLabels.Some? {
        seen := AddNewPairs(i, newLabels.value, seen, m0, log0, t0, target);
      }
      RecheckNonKv(i, newLabels, seen, m0, log0, t0, target);
      ghost var covered := seen + nonKvExprs.Keys;
      forall e ensures Contains(matches.byExpr, e, i) <==> e in target {
        if e !in covered {
          assert e !in oldSeen;
          assert !Contains(m0, e, i);
        }
      }
      RowEvents(m0, matches.byExpr, log0, matches.events, i, covered);
    }

    /** `on_expression_update`, first step: the old expression leaves the
        literal index and the non-literal map. */
    method UnindexExpression(e: ExprId)
      requires LiteralsIndexed(kvToLiteral, exprsById)
      modifies this
      ensures forall kv, e' :: Contains(kvToLiteral, kv, e') <==> e' != e && Contains(old(kvToLiteral), kv, e')
      ensures nonKvExprs == old(nonKvExprs) - {e}
      ensures labelsByItem == old(labelsByItem) && exprsById == old(exprsById) && itemsByKV == old(itemsByKV)
    {
      if e in exprsById && IsLiteral(exprsById[e]) {
        var oldExpr := exprsById[e];
        ghost var k0 := kvToLiteral;
        var remaining := LiteralValues(oldExpr);
        ghost var done: set<string> := {};
        while remaining != {}
          invariant remaining + done == LiteralValues(oldExpr) && remaining !! done
          invariant forall kv, e' :: Contains(kvToLiteral, kv, e') <==>
            Contains(k0, kv, e') && !(e' == e && kv.0 == oldExpr.key && kv.1 in done)
          invariant labelsByItem == old(labelsByItem) && exprsById == old(exprsById) && itemsByKV == old(itemsByKV)
          invariant nonKvExprs == old(nonKvExprs)
          decreases remaining
        {
          var v :| v in remaining;
          kvToLiteral := DiscardFrom(kvToLiteral, (oldExpr.key, v), e);
          remaining := remaining - {v};
          done := done + {v};
        }
      }
      nonKvExprs := nonKvExprs - {e};
    }

    /** `on_expression_update` on a deletion: every old match is dropped. */
    method ClearColumn(e: ExprId) returns (ghost seen: set<ItemId>)
      requires matches.Valid() && MatchesExactly(matches, exprsById, labelsByItem)
      modifies matches
      ensures matches.ColDone(e, old(matches.byExpr), old(matches.events), old(matches.totalEvaluations), true, seen, {})
    {
      ghost var m0 := matches.byExpr;
      ghost var log0 := matches.events;
      ghost var t0 := matches.totalEvaluations;
      var items := Values(matches.byExpr, e);
      var remaining := items;
      seen := {};
      matches.ColStart(e, true, {});
      forall i | Contains(m0, e, i) ensures i in labelsByItem {
        assert matches.Matched(e, i);
      }
      while remaining != {}
        invariant remaining + seen == items && remaining !! seen
        invariant matches.ColState(e, m0, log0, t0, true, seen, {})
        invariant forall i :: Contains(m0, e, i) ==> i in labelsByItem
        decreases remaining
      {
        var i :| i in remaining;
        assert Contains(m0, e, i);
        matches.ColUpdate(e, i, None, Some(labelsByItem[i]), m0, log0, t0, true, seen, {});
        remaining := remaining - {i};
        seen := seen + {i};
      }
    }

    /** The inner loop of `on_expression_update`'s first loop on a literal
        expression: the items indexed under one pair are stored as matches of
        the column and struck off the old matches. */
    method StoreColumnItems(e: ExprId, items: set<ItemId>, leftovers0: set<ItemId>,
                            ghost m0: OneToMany<ExprId, ItemId>, ghost log0: seq<Event>, ghost t0: nat,
                            ghost seen0: set<ItemId>, ghost target: set<ItemId>)
      returns (leftovers: set<ItemId>, ghost seen: set<ItemId>)
      requires items <= target
      requires matches.ColState(e, m0, log0, t0, true, seen0, target)
      modifies matches
      ensures matches.ColState(e, m0, log0, t0, true, seen, target)
      ensures seen == seen0 + items && leftovers == leftovers0 - items
    {
      leftovers := leftovers0;
      seen := seen0;
      var todo := items;
      while todo != {}
        invariant todo <= items
        invariant matches.ColState(e, m0, log0, t0, true, seen, target)
        invariant seen == seen0 + (items - todo) && leftovers == leftovers0 - (items - todo)
        decreases todo
      {
        var i :| i in todo;
        leftovers := leftovers - {i};
        matches.ColStore(e, i, m0, log0, t0, true, seen, target);
        seen := seen + {i};
        todo := todo - {i};
      }
    }

    /** `on_expression_update` on a literal expression, first loop: the
        items indexed under each of its pairs are stored as matches and
        struck off `oldMatches`, and the expression is indexed under the pair. */
    method StoreLiteralMatches(e: ExprId, x: Expr, oldMatches: set<ItemId>, ghost target: set<ItemId>)
      returns (leftovers: set<ItemId>, ghost seen: set<ItemId>)
      requires IsLiteral(x)
      requires forall i :: i in target <==> i in labelsByItem && Eval(x, labelsByItem[i])
      requires matches.Valid() && KVIndexed(itemsByKV, labelsByItem)
      modifies this, matches
      ensures matches.ColState(e, old(matches.byExpr), old(matches.events), old(matches.totalEvaluations), true, seen, target)
      ensures seen == target && leftovers == oldMatches - seen
      ensures forall kv, e' :: Contains(kvToLiteral, kv, e') <==> Contains(old(kvToLiteral), kv, e') || (e' == e && LiteralFor(x, kv))
      ensures labelsByItem == old(labelsByItem) && exprsById == old(exprsById) && itemsByKV == old(itemsByKV)
      ensures nonKvExprs == old(nonKvExprs)
    {
      ghost var m0 := matches.byExpr;
      ghost var log0 := matches.events;
      ghost var t0 := matches.totalEvaluations;
      ghost var k0 := kvToLiteral;
      leftovers := oldMatches;
      seen := {};
      matches.ColStart(e, true, target);
      var values := LiteralValues(x);
      var remaining := values;
      ghost var done: set<string> := {};
      while remaining != {}
        invariant remaining + done == values && remaining !! done
        invariant matches.ColState(e, m0, log0, t0, true, seen, target) && seen <= target
        invariant leftovers == oldMatches - seen
        invariant forall i, v :: v in done && i in labelsByItem && Holds((x.key, v), labelsByItem[i]) ==> i in seen
        invariant forall kv, e' :: Contains(kvToLiteral, kv, e') <==> Contains(k0, kv, e') || (e' == e && kv.0 == x.key && kv.1 in done)
        invariant labelsByItem == old(labelsByItem) && exprsById == old(exprsById) && itemsByKV == old(itemsByKV)
        invariant nonKvExprs == old(nonKvExprs)
        decreases remaining
      {
        var v :| v in remaining;
        var kv := (x.key, v);
        var items := Values(itemsByKV, kv);
        forall i | i in items ensures i in target {
          LiteralEval(x, labelsByItem[i]);
          assert LiteralFor(x, kv);
        }
        leftovers, seen := StoreColumnItems(e, items, leftovers, m0, log0, t0, seen, target);
        kvToLiteral := AddTo(kvToLiteral, kv, e);
        remaining := remaining - {v};
        done := done + {v};
      }
      forall i | i in target ensures i in seen {
        LiteralEval(x, labelsByItem[i]);
      }
    }

    /** `on_expression_update` on a literal expression: the old matches are
        taken as a set, the indexed items stored, and what is left of the old
        matches discarded. */
    method IndexLiteralColumn(e: ExprId, x: Expr, ghost target: set<ItemId>) returns (ghost seen: set<ItemId>)
      requires IsLiteral(x)
      requires forall i :: i in target <==> i in labelsByItem && Eval(x, labelsByItem[i])
      requires matches.Valid() && KVIndexed(itemsByKV, labelsByItem)
      modifies this, matches
      ensures matches.ColDone(e, old(matches.byExpr), old(matches.events), old(matches.totalEvaluations), true, seen, target)
      ensures forall kv, e' :: Contains(kvToLiteral, kv, e') <==> Contains(old(kvToLiteral), kv, e') || (e' == e && LiteralFor(x, kv))
      ensures labelsByItem == old(labelsByItem) && exprsById == old(exprsById) && itemsByKV == old(itemsByKV)
      ensures nonKvExprs == old(nonKvExprs)
    {
      ghost var m0 := matches.byExpr;
      ghost var log0 := matches.events;
      ghost var t0 := matches.totalEvaluations;
      var oldMatches := Values(matches.byExpr, e);
      var leftovers;
      leftovers, seen := StoreLiteralMatches(e, x, oldMatches, target);
      seen := matches.DiscardLeftovers(e, leftovers, m0, log0, t0, seen, target);
    }

    /** `on_expression_update` on an expression with a required pair: only
        the items holding that pair are evaluated; the old matches left over
        are dropped. Sound because every match holds every required pair. */
    method IndexedScanColumn(e: ExprId, x: Expr, best: KV, ghost target: set<ItemId>) returns (ghost seen: set<ItemId>)
      requires best in RequiredKvs(x)
      requires forall i :: i in target <==> i in labelsByItem && Eval(x, labelsByItem[i])
      requires matches.Valid() && MatchesExactly(matches, exprsById, labelsByItem) && KVIndexed(itemsByKV, labelsByItem)
      modifies matches
      ensures matches.ColDone(e, old(matches.byExpr), old(matches.events), old(matches.totalEvaluations), false, seen, target)
    {
      ghost var m0 := matches.byExpr;
      ghost var log0 := matches.events;
      ghost var t0 := matches.totalEvaluations;
      var oldMatches := Values(matches.byExpr, e);
      var candidates := Values(itemsByKV, best);
      forall i | Contains(m0, e, i) ensures i in labelsByItem {
        assert matches.Matched(e, i);
      }
      matches.ColStart(e, false, target);
      oldMatches, seen := EvaluateCandidates(e, x, candidates, oldMatches, m0, log0, t0, target);
      forall i | i in target ensures i in seen {
        RequiredKvsSound(x, labelsByItem[i]);
      }
      seen := DropNonCandidates(e, oldMatches, m0, log0, t0, seen, target);
    }

    /** The first loop of the indexed scan: each candidate is evaluated and
        struck off the old matches. */
    method EvaluateCandidates(e: ExprId, x: Expr, candidates: set<ItemId>, oldMatches0: set<ItemId>,
                              ghost m0: OneToMany<ExprId, ItemId>, ghost log0: seq<Event>, ghost t0: nat,
                              ghost target: set<ItemId>) returns (oldMatches: set<ItemId>, ghost seen: set<ItemId>)
      requires forall i :: i in candidates ==> i in labelsByItem
      requires forall i :: i in target <==> i in labelsByItem && Eval(x, labelsByItem[i])
      requires matches.ColState(e, m0, log0, t0, false, {}, target)
      requires oldMatches0 == Values(m0, e)
      modifies matches
      ensures matches.ColState(e, m0, log0, t0, false, seen, target)
      ensures seen == candidates && oldMatches == Values(m0, e) - seen
    {
      oldMatches := oldMatches0;
      seen := {};
      var todo := candidates;
      while todo != {}
        invariant todo + seen == candidates && todo !! seen
        invariant matches.ColState(e, m0, log0, t0, false, seen, target)
        invariant oldMatches == Values(m0, e) - seen
        decreases todo
      {
        var i :| i in todo;
        oldMatches := oldMatches - {i};
        matches.ColUpdate(e, i, Some(x), Some(labelsByItem[i]), m0, log0, t0, false, seen, target);
        seen := seen + {i};
        todo := todo - {i};
      }
    }

    /** The second loop of the indexed scan: the old matches that were not
        candidates are updated with no expression, which removes them. */
    method DropNonCandidates(e: ExprId, leftovers: set<ItemId>,
                             ghost m0: OneToMany<ExprId, ItemId>, ghost log0: seq<Event>, ghost t0: nat,
                             ghost seen0: set<ItemId>, ghost target: set<ItemId>) returns (ghost seen: set<ItemId>)
      requires forall i :: i in leftovers ==> i in labelsByItem
      requires matches.ColState(e, m0, log0, t0, false, seen0, target) && target <= seen0
      requires leftovers == Values(m0, e) - seen0
      modifies matches
      ensures matches.ColDone(e, m0, log0, t0, false, seen, target)
    {
      seen := seen0;
      var todo := leftovers;
      while todo != {}
        invariant todo <= leftovers
        invariant matches.ColState(e, m0, log0, t0, false, seen, target) && target <= seen
        invariant todo !! seen && Values(m0, e) <= seen + todo
        decreases todo
      {
        var i :| i in todo;
        matches.ColUpdate(e, i, None, Some(labelsByItem[i]), m0, log0, t0, false, seen, target);
        seen := seen + {i};
        todo := todo - {i};
      }
    }

    /** `on_expression_update` on any other expression: through the best
        required pair when there is one, otherwise a full label scan. */
    method ScanColumn(e: ExprId, x: Expr, ghost target: set<ItemId>) returns (ghost seen: set<ItemId>)
      requires forall i :: i in target <==> i in labelsByItem && Eval(x, labelsByItem[i])
      requires matches.Valid() && MatchesExactly(matches, exprsById, labelsByItem) && KVIndexed(itemsByKV, labelsByItem)
      modifies matches
      ensures matches.ColDone(e, old(matches.byExpr), old(matches.events), old(matches.totalEvaluations), false, seen, target)
    {
      var required := RequiredKvs(x);
      if required != {} {
        var best := FindBestIndex(required);
        seen := IndexedScanColumn(e, x, best.value, target);
      } else {
        ghost var m0 := matches.byExpr;
        forall i | Contains(m0, e, i) ensures i in labelsByItem {
          assert matches.Matched(e, i);
        }
        seen := matches.ScanAllLabels(e, Some(x), labelsByItem);
      }
    }

    /** `on_expression_update`, after un-indexing: the column of `e` is
        brought up to date by the cheapest route the new expression allows. */
    method UpdateColumn(e: ExprId, expr: Option<Expr>, ghost target: set<ItemId>) returns (ghost seen: set<ItemId>)
      requires forall i :: i in target <==> i in labelsByItem && expr.Some? && Eval(expr.value, labelsByItem[i])
      requires matches.Valid() && MatchesExactly(matches, exprsById, labelsByItem) && KVIndexed(itemsByKV, labelsByItem)
      modifies this, matches
      ensures matches.ColDone(e, old(matches.byExpr), old(matches.events), old(matches.totalEvaluations),
                              expr.None? || IsLiteral(expr.value), seen, target)
      ensures forall kv, e' :: Contains(kvToLiteral, kv, e') <==>
        Contains(old(kvToLiteral), kv, e') || (e' == e && expr.Some? && LiteralFor(expr.value, kv))
      ensures nonKvExprs == if expr.Some? && !IsLiteral(expr.value) then old(nonKvExprs)[e := expr.value] else old(nonKvExprs)
      ensures labelsByItem == old(labelsByItem) && exprsById == old(exprsById) && itemsByKV == old(itemsByKV)
    {
      if expr.None? {
        seen := ClearColumn(e);
      } else if IsLiteral(expr.value) {
        seen := IndexLiteralColumn(e, expr.value, target);
      } else {
        seen := ScanColumn(e, expr.value, target);
        nonKvExprs := nonKvExprs[e := expr.value];
      }
    }

    /** `on_expression_update`: the old expression is un-indexed, then the
        column of `e` is brought up to date by the cheapest route the new
        expression allows, then the expression is stored, or removed when it
        is None. */
    method OnExpressionUpdate(e: ExprId, expr: Option<Expr>)
      requires Valid()
      modifies this, matches
      ensures Valid()
      ensures exprsById == if expr.Some? then old(exprsById)[e := expr.value] else old(exprsById) - {e}
      ensures labelsByItem == old(labelsByItem)
      ensures |matches.events| >= |old(matches.events)| && matches.events[..|old(matches.events)|] == old(matches.events)
      ensures forall ev :: ev in matches.events[|old(matches.events)|..] <==>
        old(matches.Matched(ev.e, ev.i)) != matches.Matched(ev.e, ev.i) && (ev.Started? <==> matches.Matched(ev.e, ev.i))
      ensures matches.totalEvaluations >= old(matches.totalEvaluations)
      ensures (expr.None? || IsLiteral(expr.value)) ==> matches.totalEvaluations == old(matches.totalEvaluations)
    {
      ghost var m0 := matches.byExpr;
      ghost var log0 := matches.events;
      ghost var k0 := kvToLiteral;
      ghost var n0 := nonKvExprs;
      ghost var exprs0 := exprsById;
      ghost var target := set i | i in labelsByItem && expr.Some? && Eval(expr.value, labelsByItem[i]);
      ExactAsRelation(matches, exprs0, labelsByItem);
      UnindexExpression(e);
      ghost var k1 := kvToLiteral;
      ghost var seen := UpdateColumn(e, expr, target);
      if expr.Some? {
        exprsById := exprsById[e := expr.value];
      } else {
        exprsById := exprsById - {e};
      }
      ColumnReplaced(m0, matches.byExpr, exprs0, exprsById, labelsByItem, e, target, seen);
      RelationAsExact(matches, exprsById, labelsByItem);
      ColumnEvents(m0, matches.byExpr, log0, matches.events, e, seen);
      LiteralsReindexed(k0, k1, kvToLiteral, exprs0, e, expr);
      NonKvReindexed(n0, exprs0, e, expr);
    }
  }

  /** The match relation of an exact index, as a statement about its map. */
  lemma ExactAsRelation(m: MatchIndex, exprs: map<ExprId, Expr>, labels: map<ItemId, Labels>)
    requires MatchesExactly(m, exprs, labels)
    ensures forall e', i :: Contains(m.byExpr, e', i) <==> e' in exprs && i in labels && Eval(exprs[e'], labels[i])
  {
    forall e', i ensures Contains(m.byExpr, e', i) <==> e' in exprs && i in labels && Eval(exprs[e'], labels[i]) {
      assert m.Matched(e', i) == Contains(m.byExpr, e', i);
    }
  }

  lemma RelationAsExact(m: MatchIndex, exprs: map<ExprId, Expr>, labels: map<ItemId, Labels>)
    requires forall e', i :: Contains(m.byExpr, e', i) <==> e' in exprs && i in labels && Eval(exprs[e'], labels[i])
    ensures MatchesExactly(m, exprs, labels)
  {
  }

  /** Dropping the old literal pairs of `e` and adding those of the new
      expression keeps the literal index exact. */
  lemma LiteralsReindexed(k0: OneToMany<KV, ExprId>, k1: OneToMany<KV, ExprId>, k2: OneToMany<KV, ExprId>,
                          exprs0: map<ExprId, Expr>, e: ExprId, expr: Option<Expr>)
    requires LiteralsIndexed(k0, exprs0)
    requires forall kv, e' :: Contains(k1, kv, e') <==> e' != e && Contains(k0, kv, e')
    requires forall kv, e' :: Contains(k2, kv, e') <==> Contains(k1, kv, e') || (e' == e && expr.Some? && LiteralFor(expr.value, kv))
    ensures LiteralsIndexed(k2, if expr.Some? then exprs0[e := expr.value] else exprs0 - {e})
  {
  }

  /** Likewise for the split-off non-literal expressions. */
  lemma NonKvReindexed(n0: map<ExprId, Expr>, exprs0: map<ExprId, Expr>, e: ExprId, expr: Option<Expr>)
    requires NonKvSplit(n0, exprs0)
    ensures NonKvSplit(if expr.Some? && !IsLiteral(expr.value) then (n0 - {e})[e := expr.value] else n0 - {e},
                       if expr.Some? then exprs0[e := expr.value] else exprs0 - {e})
  {
  }

  // ---------------------------------------------------------------------
  // Label inheritance

  /** The parents' labels merged in list order, a later parent's value
      overriding an earlier one's; a parent without labels adds nothing. */
  function MergeParents(parents: seq<ParentId>, byParent: map<ParentId, Labels>): Labels
    decreases |parents|
  {
    if parents == [] then map[]
    else
      var last := parents[|parents| - 1];
      MergeParents(parents[..|parents| - 1], byParent) + (if last in byParent then byParent[last] else map[])
  }

  /** A merged label comes from some parent, and from the last parent in
      the list that has it. */
  lemma MergeParentsLastWins(parents: seq<ParentId>, byParent: map<ParentId, Labels>, k: string)
    ensures k in MergeParents(parents, byParent) <==>
      exists j :: 0 <= j < |parents| && parents[j] in byParent && k in byParent[parents[j]]
    ensures k in MergeParents(parents, byParent) ==>
      exists j :: 0 <= j < |parents| && parents[j] in byParent && k in byParent[parents[j]] &&
        MergeParents(parents, byParent)[k] == byParent[parents[j]][k] &&
        forall j' :: j < j' < |parents| && parents[j'] in byParent ==> k !in byParent[parents[j']]
  {
    MergeParentsHas(parents, byParent, k);
    MergeParentsLast(parents, byParent, k);
  }

  lemma {:induction false} MergeParentsHas(parents: seq<ParentId>, byParent: map<ParentId, Labels>, k: string)
    ensures k in MergeParents(parents, byParent) <==>
      exists j :: 0 <= j < |parents| && parents[j] in byParent && k in byParent[parents[j]]
    decreases |parents|
  {
    if parents != [] {
      var n := |parents| - 1;
      var init := parents[..n];
      MergeParentsHas(init, byParent, k);
      assert forall j :: 0 <= j < n ==> init[j] == parents[j];
    }
  }

  lemma {:induction false} MergeParentsLast(parents: seq<ParentId>, byParent: map<ParentId, Labels>, k: string)
    ensures k in MergeParents(parents, byParent) ==>
      exists j :: 0 <= j < |parents| && parents[j] in byParent && k in byParent[parents[j]] &&
        MergeParents(parents, byParent)[k] == byParent[parents[j]][k] &&
        forall j' :: j < j' < |parents| && parents[j'] in byParent ==> k !in byParent[parents[j']]
    decreases |parents|
  {
    if parents != [] {
      var n := |parents| - 1;
      var init := parents[..n];
      MergeParentsLast(init, byParent, k);
      if parents[n] in byParent && k in byParent[parents[n]] {
        assert MergeParents(parents, byParent)[k] == byParent[parents[n]][k];
      } else if k in MergeParents(init, byParent) {
        var j :| 0 <= j < n && init[j] in byParent && k in byParent[init[j]] &&
          MergeParents(init, byParent)[k] == byParent[init[j]][k] &&
          forall j' :: j < j' < n && init[j'] in byParent ==> k !in byParent[init[j']];
        assert parents[j] == init[j];
        assert forall j' :: j < j' < n ==> init[j'] == parents[j'];
      }
    }
  }

  /** The merge only depends on the labels of the parents in the list. */
  lemma {:induction false} MergeParentsFrame(parents: seq<ParentId>, bp1: map<ParentId, Labels>, bp2: map<ParentId, Labels>)
    requires forall p :: p in parents ==> (p in bp1 <==> p in bp2) && (p in bp1 ==> bp1[p] == bp2[p])
    ensures MergeParents(parents, bp1) == MergeParents(parents, bp2)
    decreases |parents|
  {
    if parents != [] {
      var n := |parents| - 1;
      assert forall p :: p in parents[..n] ==> p in parents;
      MergeParentsFrame(parents[..n], bp1, bp2);
    }
  }

  /** `dict.get`: the value under `k`, if any. */
  function Lookup<K, V>(m: map<K, V>, k: K): (r: Option<V>)
    ensures r.Some? <==> k in m
    ensures r.Some? ==> r.value == m[k]
  {
    if k in m then Some(m[k]) else None
  }

  /** `LabelInheritanceIndex`: items carry their own labels and a list of
      parents with labels of their own; the wrapped index sees each item
      with its parents' labels merged in, its own labels overriding them.
      Every public operation flushes the items it made dirty. */
  class LabelInheritanceIndex {
    const index: LabelValueIndex
    var labelsByItem: map<ItemId, Labels>
    var labelsByParent: map<ParentId, Labels>
    var parentsByItem: map<ItemId, seq<ParentId>>
    var itemsByParent: OneToMany<ParentId, ItemId>
    var dirty: set<ItemId>

    function ParentsOf(i: ItemId): seq<ParentId>
      reads this
    {
      if i in parentsByItem then parentsByItem[i] else []
    }

    /** The labels the wrapped index is given for item `i`. */
    function Combined(i: ItemId): (r: Labels)
      requires i in labelsByItem
      reads this
      ensures forall k :: k in labelsByItem[i] ==> k in r && r[k] == labelsByItem[i][k]
      ensures forall k :: k in r <==> k in labelsByItem[i] || k in MergeParents(ParentsOf(i), labelsByParent)
      ensures forall k :: k in r && k !in labelsByItem[i] ==> r[k] == MergeParents(ParentsOf(i), labelsByParent)[k]
    {
      MergeParents(ParentsOf(i), labelsByParent) + labelsByItem[i]
    }

    /** The wrapped index holds item `i` exactly when it has labels here,
        and with the combined labels. */
    ghost predicate Synced(i: ItemId)
      reads this, index
    {
      (i in index.labelsByItem <==> i in labelsByItem) &&
      (i in labelsByItem ==> index.labelsByItem[i] == Combined(i))
    }

    /** `item_ids_by_parent_id` is the inverse of `parent_ids_by_item_id`. */
    ghost predicate ParentsIndexed()
      reads this
    {
      Inverse(itemsByParent, parentsByItem)
    }

    /** Between the steps of an update: only dirty items may be stale. */
    ghost predicate Pending()
      reads this, index, index.matches
    {
      index.Valid() && ParentsIndexed() && forall i :: i !in dirty ==> Synced(i)
    }

    ghost predicate Valid()
      reads this, index, index.matches
    {
      Pending() && dirty == {}
    }

    /** The index starts empty around an index that holds no items. */
    constructor (labelIndex: LabelValueIndex)
      requires labelIndex.Valid() && labelIndex.labelsByItem == map[]
      ensures Valid() && index == labelIndex
      ensures labelsByItem == map[] && labelsByParent == map[] && parentsByItem == map[]
    {
      index := labelIndex;
      labelsByItem := map[];
      labelsByParent := map[];
      parentsByItem := map[];
      itemsByParent := map[];
      dirty := {};
    }

    /** `_flush_item`, label combination: the parents' labels in order, then
        the item's own labels on top, as `Combined` states. */
    method CombineLabels(i: ItemId) returns (combined: Labels)
      requires i in labelsByItem
      ensures combined == Combined(i)
    {
      var itemLabels := labelsByItem[i];
      var parents := if i in parentsByItem then parentsByItem[i] else [];
      combined := map[];
      var k := 0;
      while k < |parents|
        invariant 0 <= k <= |parents|
        invariant combined == MergeParents(parents[..k], labelsByParent)
      {
        var p := parents[k];
        assert parents[..k + 1][..k] == parents[..k];
        if p in labelsByParent && labelsByParent[p] != map[] {
          combined := combined + labelsByParent[p];
        } else {
          assert combined + (if p in labelsByParent then labelsByParent[p] else map[]) == combined;
        }
        k := k + 1;
      }
      assert parents[..k] == parents;
      if combined != map[] {
        combined := combined + itemLabels;
      } else {
        assert MergeParents(parents, labelsByParent) + itemLabels == itemLabels;
        combined := itemLabels;
      }
    }

    /** `_flush_item`: an item without labels is deleted from the wrapped
        index, any other is given its combined labels. */
    method FlushItem(i: ItemId)
      requires index.Valid()
      modifies index, index.matches
      ensures index.Valid() && Synced(i)
      ensures index.labelsByItem == if i in labelsByItem then old(index.labelsByItem)[i := Combined(i)] else old(index.labelsByItem) - {i}
      ensures index.exprsById == old(index.exprsById)
      ensures forall e, i' :: i' != i ==> (index.matches.Matched(e, i') <==> old(index.matches.Matched(e, i')))
      ensures |index.matches.events| >= |old(index.matches.events)| &&
        index.matches.events[..|old(index.matches.events)|] == old(index.matches.events)
      ensures forall ev :: ev in index.matches.events[|old(index.matches.events)|..] <==>
        old(index.matches.Matched(ev.e, ev.i)) != index.matches.Matched(ev.e, ev.i) && (ev.Started? <==> index.matches.Matched(ev.e, ev.i))
    {
      if i !in labelsByItem {
        index.OnLabelsUpdate(i, None);
      } else {
        var combined := CombineLabels(i);
        index.OnLabelsUpdate(i, Some(combined));
      }
    }

    /** Part way through `_flush_updates`: the items still to flush are the
        only stale ones, the matches of the items not yet flushed are as
        in `m0`, and the events since `log0` are the changes so far. */
    ghost predicate FlushState(todo: set<ItemId>, done: set<ItemId>, m0: OneToMany<ExprId, ItemId>,
                               log0: seq<Event>, exprs0: map<ExprId, Expr>)
      reads this, index, index.matches
    {
      index.Valid() && index.exprsById == exprs0 &&
      (forall i :: i !in todo ==> Synced(i)) &&
      (forall e, i :: i !in done ==> (index.matches.Matched(e, i) <==> Contains(m0, e, i))) &&
      |index.matches.events| >= |log0| && index.matches.events[..|log0|] == log0 &&
      (forall ev :: ev in index.matches.events[|log0|..] <==>
        ev.i in done && Contains(m0, ev.e, ev.i) != index.matches.Matched(ev.e, ev.i) &&
        (ev.Started? <==> index.matches.Matched(ev.e, ev.i)))
    }

    /** One step of `_flush_updates`. */
    method FlushStep(i: ItemId, ghost todo: set<ItemId>, ghost done: set<ItemId>,
                     ghost m0: OneToMany<ExprId, ItemId>, ghost log0: seq<Event>, ghost exprs0: map<ExprId, Expr>)
      requires i in todo && i !in done
      requires FlushState(todo, done, m0, log0, exprs0)
      modifies index, index.matches
      ensures FlushState(todo - {i}, done + {i}, m0, log0, exprs0)
    {
      ghost var before := index.matches.events;
      FlushItem(i);
      assert index.matches.events[|log0|..] == before[|log0|..] + index.matches.events[|before|..];
    }

    /** `_flush_updates`: every dirty item is flushed, once, and the dirty set
        cleared. Whatever the order, the events are exactly the changes. */
    method Flush()
      requires Pending()
      modifies this, index, index.matches
      ensures Valid()
      ensures labelsByItem == old(labelsByItem) && labelsByParent == old(labelsByParent)
      ensures parentsByItem == old(parentsByItem) && itemsByParent == old(itemsByParent)
      ensures index.exprsById == old(index.exprsById)
      ensures |index.matches.events| >= |old(index.matches.events)| &&
        index.matches.events[..|old(index.matches.events)|] == old(index.matches.events)
      ensures forall ev :: ev in index.matches.events[|old(index.matches.events)|..] <==>
        old(index.matches.Matched(ev.e, ev.i)) != index.matches.Matched(ev.e, ev.i) && (ev.Started? <==> index.matches.Matched(ev.e, ev.i))
    {
      ghost var m0 := index.matches.byExpr;
      ghost var log0 := index.matches.events;
      ghost var exprs0 := index.exprsById;
      var todo := dirty;
      ghost var done: set<ItemId> := {};
      assert index.matches.events[|log0|..] == [];
      while todo != {}
        invariant FlushState(todo, done, m0, log0, exprs0) && todo !! done
        invariant ParentsIndexed()
        modifies index, index.matches
        decreases todo
      {
        var i :| i in todo;
        FlushStep(i, todo, done, m0, log0, exprs0);
        todo := todo - {i};
        done := done + {i};
      }
      dirty := {};
    }

    /** `_on_item_labels_update`: a change of the item's own labels is
        stored and makes the item dirty; an unchanged value does nothing. */
    method UpdateItemLabels(i: ItemId, labels: Option<Labels>)
      requires Pending()
      modifies this
      ensures Pending()
      ensures labelsByItem == if labels.Some? then old(labelsByItem)[i := labels.value] else old(labelsByItem) - {i}
      ensures dirty == old(dirty) + (if Lookup(old(labelsByItem), i) != labels then {i} else {})
      ensures labelsByParent == old(labelsByParent) && parentsByItem == old(parentsByItem)
      ensures itemsByParent == old(itemsByParent)
    {
      var current := Lookup(labelsByItem, i);
      if current != labels {
        if labels.Some? {
          labelsByItem := labelsByItem[i := labels.value];
        } else {
          labelsByItem := labelsByItem - {i};
        }
        dirty := dirty + {i};
      } else if labels.None? {
        assert labelsByItem - {i} == labelsByItem;
      }
    }

    /** `_on_item_parents_update`: a change of the parent list moves the item
        from its old parents to its new ones and makes it dirty. */
    method UpdateItemParents(i: ItemId, parents: Option<seq<ParentId>>)
      requires Pending()
      modifies this
      ensures Pending()
      ensures parentsByItem == if parents.Some? then old(parentsByItem)[i := parents.value] else old(parentsByItem) - {i}
      ensures dirty == old(dirty) + (if Lookup(old(parentsByItem), i) != parents then {i} else {})
      ensures labelsByItem == old(labelsByItem) && labelsByParent == old(labelsByParent)
    {
      var oldParents := Lookup(parentsByItem, i);
      if oldParents != parents {
        itemsByParent := ReindexParents(itemsByParent, parentsByItem, i, parents);
        if parents.Some? {
          parentsByItem := parentsByItem[i := parents.value];
        } else {
          parentsByItem := parentsByItem - {i};
        }
        dirty := dirty + {i};
        assert ParentsIndexed();
        forall j | j !in dirty
          ensures Synced(j)
        {
          assert ParentsOf(j) == old(ParentsOf(j));
          if j in labelsByItem {
            assert Combined(j) == old(Combined(j));
          }
        }
      } else if parents.None? {
        assert parentsByItem - {i} == parentsByItem;
      }
    }

    /** `on_item_update`: the item's labels, then its parents, then a flush.
        Afterwards the wrapped index holds the item exactly when it has
        labels, with its parents' labels merged under its own. */
    method OnItemUpdate(i: ItemId, labels: Option<Labels>, parents: Option<seq<ParentId>>)
      requires Valid()
      modifies this, index, index.matches
      ensures Valid()
      ensures labelsByItem == if labels.Some? then old(labelsByItem)[i := labels.value] else old(labelsByItem) - {i}
      ensures parentsByItem == if parents.Some? then old(parentsByItem)[i := parents.value] else old(parentsByItem) - {i}
      ensures labelsByParent == old(labelsByParent)
      ensures i in index.labelsByItem <==> labels.Some?
      ensures labels.Some? ==> (index.labelsByItem[i] ==
        MergeParents(if parents.Some? then parents.value else [], labelsByParent) + labels.value)
      ensures index.exprsById == old(index.exprsById)
      ensures |index.matches.events| >= |old(index.matches.events)| &&
        index.matches.events[..|old(index.matches.events)|] == old(index.matches.events)
      ensures forall ev :: ev in index.matches.events[|old(index.matches.events)|..] <==>
        old(index.matches.Matched(ev.e, ev.i)) != index.matches.Matched(ev.e, ev.i) && (ev.Started? <==> index.matches.Matched(ev.e, ev.i))
    {
      UpdateItemLabels(i, labels);
      UpdateItemParents(i, parents);
      Flush();
      assert Synced(i);
    }

    /** `on_parent_labels_update`: a change of a parent's labels makes all
        of its children dirty, then a flush. */
    method OnParentLabelsUpdate(p: ParentId, labels: Option<Labels>)
      requires Valid()
      modifies this, index, index.matches
      ensures Valid()
      ensures labelsByParent == if labels.Some? then old(labelsByParent)[p := labels.value] else old(labelsByParent) - {p}
      ensures labelsByItem == old(labelsByItem) && parentsByItem == old(parentsByItem)
      ensures index.exprsById == old(index.exprsById)
      ensures |index.matches.events| >= |old(index.matches.events)| &&
        index.matches.events[..|old(index.matches.events)|] == old(index.matches.events)
      ensures forall ev :: ev in index.matches.events[|old(index.matches.events)|..] <==>
        old(index.matches.Matched(ev.e, ev.i)) != index.matches.Matched(ev.e, ev.i) && (ev.Started? <==> index.matches.Matched(ev.e, ev.i))
    {
      var current := Lookup(labelsByParent, p);
      if current != labels {
        ghost var bp0 := labelsByParent;
        if labels.Some? {
          labelsByParent := labelsByParent[p := labels.value];
        } else {
          labelsByParent := labelsByParent - {p};
        }
        var children := Values(itemsByParent, p);
        dirty := dirty + children;
        forall i | i !in dirty ensures Synced(i) {
          assert !Contains(itemsByParent, p, i);
          MergeParentsFrame(ParentsOf(i), bp0, labelsByParent);
        }
      } else if labels.None? {
        assert labelsByParent - {p} == labelsByParent;
      }
      Flush();
    }
  }
}
