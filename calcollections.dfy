/** `SetDelta`: the smallest set of additions and removals that turns a base
    set into the set the caller has asked for. */
module Calcollections {

  /** A mutable set owned by the caller, such as the one a delta is built
      over: the delta keeps a reference to it, not a copy. */
  class PySet<T(==)> {
    var elems: set<T>

    constructor (s: set<T>)
      ensures elems == s
    {
      elems := s;
    }
  }

  class SetDelta<T(==)> {
    const baseSet: PySet<T>
    var addedEntries: set<T>
    var removedEntries: set<T>

    /** Pending additions are new to the base; pending removals are in it. */
    ghost predicate Valid()
      reads this, baseSet
    {
      addedEntries !! baseSet.elems && removedEntries <= baseSet.elems
    }

    /** The set the delta describes: the base once the delta is applied. */
    ghost function Resulting(): set<T>
      reads this, baseSet
    {
      (baseSet.elems - removedEntries) + addedEntries
    }

    /** The delta is built over the caller's set itself. */
    constructor (base: PySet<T>)
      ensures Valid() && baseSet == base && addedEntries == {} && removedEntries == {}
      ensures Resulting() == base.elems
    {
      baseSet := base;
      addedEntries := {};
      removedEntries := {};
    }

    /** `add`: an entry new to the base is recorded as added; one already in
        the base cancels any pending removal. */
    method Add(entry: T)
      requires Valid()
      modifies this
      ensures Valid()
      ensures entry !in baseSet.elems ==> addedEntries == old(addedEntries) + {entry} && removedEntries == old(removedEntries)
      ensures entry in baseSet.elems ==> removedEntries == old(removedEntries) - {entry} && addedEntries == old(addedEntries)
      ensures Resulting() == old(Resulting()) + {entry}
    {
      if entry !in baseSet.elems {
        addedEntries := addedEntries + {entry};
      } else {
        removedEntries := removedEntries - {entry};
      }
    }

    /** `remove`: an entry in the base is recorded as removed; one not in the
        base cancels any pending addition. */
    method Remove(entry: T)
      requires Valid()
      modifies this
      ensures Valid()
      ensures entry in baseSet.elems ==> removedEntries == old(removedEntries) + {entry} && addedEntries == old(addedEntries)
      ensures entry !in baseSet.elems ==> addedEntries == old(addedEntries) - {entry} && removedEntries == old(removedEntries)
      ensures Resulting() == old(Resulting()) - {entry}
    {
      if entry in baseSet.elems {
        removedEntries := removedEntries + {entry};
      } else {
        addedEntries := addedEntries - {entry};
      }
    }

    /** `apply_and_reset`: the caller's base set is updated in place to the
        resulting set and nothing is pending any more. */
    method ApplyAndReset()
      requires Valid()
      modifies this, baseSet
      ensures Valid() && baseSet.elems == old(Resulting())
      ensures addedEntries == {} && removedEntries == {}
      ensures Resulting() == old(Resulting())
    {
      baseSet.elems := baseSet.elems - removedEntries;
      baseSet.elems := baseSet.elems + addedEntries;
      removedEntries := {};
      addedEntries := {};
    }

    /** `resulting_size`: the size of the base after applying, computed from
        the three sizes without building it. */
    function ResultingSize(): (r: int)
      requires Valid()
      reads this, baseSet
      ensures r == |Resulting()|
    {
      SizeAfterDelta(baseSet.elems, removedEntries, addedEntries);
      |baseSet.elems| - |removedEntries| + |addedEntries|
    }

    /** `empty`: nothing is pending, which is exactly when applying would
        leave the base as it is. */
    predicate Empty()
      requires Valid()
      reads this, baseSet
      ensures Empty() <==> Resulting() == baseSet.elems
    {
      NothingPending(baseSet.elems, removedEntries, addedEntries);
      addedEntries == {} && removedEntries == {}
    }
  }

  /** Taking away a subset and adding a disjoint set changes the size by
      exactly their sizes. */
  lemma SizeAfterDelta<T>(base: set<T>, removed: set<T>, added: set<T>)
    requires removed <= base && added !! base
    ensures |(base - removed) + added| == |base| - |removed| + |added|
  {
    assert base - removed + removed == base;
    assert (base - removed) !! removed;
    assert (base - removed) !! added;
  }

  /** Applying a delta is the identity exactly when nothing is pending. */
  lemma NothingPending<T>(base: set<T>, removed: set<T>, added: set<T>)
    requires removed <= base && added !! base
    ensures (added == {} && removed == {}) <==> (base - removed) + added == base
  {
    if added != {} {
      var x :| x in added;
      assert x in (base - removed) + added && x !in base;
    } else if removed != {} {
      var x :| x in removed;
      assert x !in (base - removed) + added && x in base;
    }
  }

  /** The add/remove sequence of the unit tests on base {a, b, c}: only `e`
      stays added, only `c` stays removed, and applying turns the caller's
      own set into {a, b, e}. */
  method AddAndRemoveExample() returns (added: set<char>, removed: set<char>, result: set<char>)
    ensures added == {'e'} && removed == {'c'}
    ensures result == {'a', 'b', 'e'}
  {
    var s := new PySet({'a', 'b', 'c'});
    var delta := new SetDelta(s);
    delta.Add('c');
    assert delta.addedEntries == {} && delta.removedEntries == {};
    delta.Add('d');
    delta.Add('e');
    assert delta.addedEntries == {'d', 'e'} && delta.removedEntries == {};
    delta.Remove('c');
    assert delta.removedEntries == {'c'};
    delta.Remove('d');
    assert delta.addedEntries == {'e'};
    delta.Remove('f');
    added, removed := delta.addedEntries, delta.removedEntries;
    assert added == {'e'} && removed == {'c'};
    assert (({'a', 'b', 'c'} - removed) + added) == {'a', 'b', 'e'};
    delta.ApplyAndReset();
    result := s.elems;
  }
}
