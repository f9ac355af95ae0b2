/** `MasqueradeManager`: tracks the IPAM pools and, at the end of each
    batch of messages, refreshes two IP sets when anything changed: every
    pool's CIDR, and the CIDRs of the pools with masquerading on. */
module Masq {
  import opened Wrappers

  /** An IPAM pool: its CIDR and its optional `masquerade` flag. */
  datatype Pool = Pool(cidr: string, masquerade: Option<bool>)

  /** `pool.get("masquerade", False)`. */
  predicate Masquerades(p: Pool)
  {
    p.masquerade == Some(true)
  }

  /** The members the all-pools set should have. */
  ghost function AllCidrs(pools: map<string, Pool>): set<string>
  {
    set id | id in pools :: pools[id].cidr
  }

  /** The members the masquerade set should have. */
  ghost function MasqCidrs(pools: map<string, Pool>): set<string>
  {
    set id | id in pools && Masquerades(pools[id]) :: pools[id].cidr
  }

  /** Every masquerading CIDR is a pool CIDR, so the MASQUERADE rule
      (source in the masquerade set, destination outside the all-pools set)
      never treats traffic to a pool as external. */
  lemma MasqWithinAll(pools: map<string, Pool>)
    ensures MasqCidrs(pools) <= AllCidrs(pools)
  {
  }

  class MasqueradeManager {
    var poolsById: map<string, Pool>
    var dirty: bool
    /** The contents last written to the two IP sets. */
    var allPoolsIpset: set<string>
    var masqPoolsIpset: set<string>

    /** Unless dirty, the IP sets reflect the pools. */
    ghost predicate Valid()
      reads this
    {
      !dirty ==> allPoolsIpset == AllCidrs(poolsById) && masqPoolsIpset == MasqCidrs(poolsById)
    }

    constructor ()
      ensures Valid() && poolsById == map[] && !dirty
    {
      poolsById := map[];
      dirty := false;
      allPoolsIpset := {};
      masqPoolsIpset := {};
    }

    /** `apply_snapshot`: the pools are replaced wholesale and the manager
        is dirty. */
    method ApplySnapshot(pools: map<string, Pool>)
      modifies this
      ensures Valid() && poolsById == pools && dirty
      ensures allPoolsIpset == old(allPoolsIpset) && masqPoolsIpset == old(masqPoolsIpset)
    {
      poolsById := pools;
      dirty := true;
    }

    /** `on_ipam_pool_updated`: a changed pool is stored, or deleted when
        None, and the manager becomes dirty; an unchanged one does nothing. */
    method OnIpamPoolUpdated(poolId: string, pool: Option<Pool>)
      requires Valid()
      modifies this
      ensures Valid()
      ensures poolsById == if pool.Some? then old(poolsById)[poolId := pool.value] else old(poolsById) - {poolId}
      ensures dirty == (old(dirty) || (if poolId in old(poolsById) then Some(old(poolsById)[poolId]) else None) != pool)
      ensures allPoolsIpset == old(allPoolsIpset) && masqPoolsIpset == old(masqPoolsIpset)
    {
      var current := if poolId in poolsById then Some(poolsById[poolId]) else None;
      if current != pool {
        if pool.None? {
          poolsById := poolsById - {poolId};
        } else {
          poolsById := poolsById[poolId := pool.value];
        }
        dirty := true;
      } else if pool.None? {
        assert poolsById - {poolId} == poolsById;
      } else {
        assert poolsById[poolId := pool.value] == poolsById;
      }
    }

    /** `_finish_msg_batch`: when dirty, both IP sets are rebuilt from the
        pools and the manager is clean; otherwise nothing happens. */
    method FinishMsgBatch()
      requires Valid()
      modifies this
      ensures Valid() && !dirty && poolsById == old(poolsById)
      ensures allPoolsIpset == AllCidrs(poolsById) && masqPoolsIpset == MasqCidrs(poolsById)
      ensures !old(dirty) ==> allPoolsIpset == old(allPoolsIpset) && masqPoolsIpset == old(masqPoolsIpset)
    {
      if dirty {
        var masqEnabledCidrs: set<string> := {};
        var allCidrs: set<string> := {};
        var remaining := poolsById.Keys;
        ghost var done: set<string> := {};
        while remaining != {}
          invariant remaining + done == poolsById.Keys && remaining !! done
          invariant allCidrs == set id | id in done :: poolsById[id].cidr
          invariant masqEnabledCidrs == set id | id in done && Masquerades(poolsById[id]) :: poolsById[id].cidr
          decreases remaining
        {
          var id :| id in remaining;
          var pool := poolsById[id];
          allCidrs := allCidrs + {pool.cidr};
          if Masquerades(pool) {
            masqEnabledCidrs := masqEnabledCidrs + {pool.cidr};
          }
          remaining := remaining - {id};
          done := done + {id};
        }
        allPoolsIpset := allCidrs;
        masqPoolsIpset := masqEnabledCidrs;
        dirty := false;
      }
    }
  }
}
