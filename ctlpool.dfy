// calicoctl pool commands: argument range checks, the overlap search and
// the validate-everything-then-add order of `ip_pool_add`.

module CtlPool {
  import opened Wrappers

  /** A CIDR block as netaddr compares networks: its IP version and its
      first and last address. */
  datatype Cidr = Cidr(version: int, first: int, last: int)

  datatype Pool = Pool(cidr: Cidr, ipip: bool, masquerade: bool)

  /** netaddr's `inner in outer` for networks. */
  predicate Within(inner: Cidr, outer: Cidr)
  {
    inner.version == outer.version && outer.first <= inner.first && inner.last <= outer.last
  }

  /** The overlap test of `_get_overlapping_pool`: one block inside the
      other, an identical block excepted (a pool being updated). */
  predicate Overlaps(a: Cidr, b: Cidr)
  {
    (Within(a, b) || Within(b, a)) && a != b
  }

  lemma OverlapsSymmetric(a: Cidr, b: Cidr)
    ensures Overlaps(a, b) <==> Overlaps(b, a)
    ensures !Overlaps(a, a)
  {
  }

  /** The first pool of `others`, in list order, that overlaps `cidr`. */
  function FirstOverlapping(cidr: Cidr, others: seq<Pool>): Option<Pool>
  {
    if others == [] then None
    else if Overlaps(cidr, others[0].cidr) then Some(others[0])
    else FirstOverlapping(cidr, others[1..])
  }

  /** None exactly when no pool overlaps; otherwise the earliest that does. */
  lemma {:induction false} FirstOverlappingMeaning(cidr: Cidr, others: seq<Pool>)
    ensures FirstOverlapping(cidr, others).None? <==> forall k :: 0 <= k < |others| ==> !Overlaps(cidr, others[k].cidr)
    ensures FirstOverlapping(cidr, others).Some? ==>
      exists k :: 0 <= k < |others| && others[k] == FirstOverlapping(cidr, others).value &&
        Overlaps(cidr, others[k].cidr) && forall j :: 0 <= j < k ==> !Overlaps(cidr, others[j].cidr)
  {
    if others != [] && !Overlaps(cidr, others[0].cidr) {
      var rest := others[1..];
      FirstOverlappingMeaning(cidr, rest);
      forall k | 1 <= k < |others|
        ensures others[k] == rest[k - 1]
      {
      }
      if FirstOverlapping(cidr, rest).Some? {
        var k :| 0 <= k < |rest| && rest[k] == FirstOverlapping(cidr, rest).value &&
          Overlaps(cidr, rest[k].cidr) && forall j :: 0 <= j < k ==> !Overlaps(cidr, rest[j].cidr);
        assert others[k + 1] == rest[k];
        assert forall j :: 0 <= j < k + 1 ==> !Overlaps(cidr, others[j].cidr) by {
          forall j | 0 <= j < k + 1
            ensures !Overlaps(cidr, others[j].cidr)
          {
            if j > 0 {
              assert others[j] == rest[j - 1];
            }
          }
        }
      }
    } else if others != [] {
      assert others[0] == FirstOverlapping(cidr, others).value;
    }
  }

  /** `_get_overlapping_pool`: a find-first loop with an early return. */
  method GetOverlappingPool(cidr: Cidr, others: seq<Pool>) returns (r: Option<Pool>)
    ensures r == FirstOverlapping(cidr, others)
  {
    var k := 0;
    while k < |others|
      invariant 0 <= k <= |others|
      invariant FirstOverlapping(cidr, others) == FirstOverlapping(cidr, others[k..])
    {
      assert others[k..][1..] == others[k + 1..];
      if Overlaps(cidr, others[k].cidr) {
        return Some(others[k]);
      }
      k := k + 1;
    }
    return None;
  }

  // ---------------------------------------------------------------------
  // ip_pool_add.

  /** The reasons `ip_pool_add` exits. */
  datatype AddError =
    | IpipOnIpv6
    | InvalidBlockSize(cidr: Cidr)
    | OverlapsExisting(cidr: Cidr, other: Cidr)
    | OverlapsNew(cidr: Cidr, other: Cidr)

  /** The pools `ip_pool_add` would add, in order, or the first reason it
      exits. `validBlock` stands for `IPPool`'s block-size check, which is
      not part of this model. */
  function NewPools(cidrs: seq<Cidr>, ipip: bool, masquerade: bool, current: seq<Pool>,
                    validBlock: Cidr -> bool): Result<seq<Pool>, AddError>
  {
    if cidrs == [] then Ok([])
    else
      match NewPools(cidrs[..|cidrs| - 1], ipip, masquerade, current, validBlock)
      case Err(e) => Err(e)
      case Ok(pending) =>
        var cidr := cidrs[|cidrs| - 1];
        if !validBlock(cidr) then Err(InvalidBlockSize(cidr))
        else match FirstOverlapping(cidr, current)
          case Some(o) => Err(OverlapsExisting(cidr, o.cidr))
          case None =>
            match FirstOverlapping(cidr, pending)
            case Some(o) => Err(OverlapsNew(cidr, o.cidr))
            case None => Ok(pending + [Pool(cidr, ipip, masquerade)])
  }

  function PoolAdd(cidrs: seq<Cidr>, version: int, ipip: bool, masquerade: bool, current: seq<Pool>,
                   validBlock: Cidr -> bool): Result<seq<Pool>, AddError>
  {
    if version == 6 && ipip then Err(IpipOnIpv6) else NewPools(cidrs, ipip, masquerade, current, validBlock)
  }

  /** Accepted pools keep the requested CIDRs in order, and none overlaps
      an existing pool or another new one. */
  lemma {:induction false} NewPoolsSound(cidrs: seq<Cidr>, ipip: bool, masquerade: bool, current: seq<Pool>,
                                          validBlock: Cidr -> bool)
    requires NewPools(cidrs, ipip, masquerade, current, validBlock).Ok?
    ensures var pools := NewPools(cidrs, ipip, masquerade, current, validBlock).value;
      && |pools| == |cidrs|
      && (forall k :: 0 <= k < |cidrs| ==> pools[k] == Pool(cidrs[k], ipip, masquerade) && validBlock(cidrs[k]))
      && (forall k, c :: 0 <= k < |cidrs| && 0 <= c < |current| ==> !Overlaps(cidrs[k], current[c].cidr))
      && (forall i, j :: 0 <= i < j < |cidrs| ==> !Overlaps(cidrs[j], cidrs[i]) && !Overlaps(cidrs[i], cidrs[j]))
  {
    if cidrs != [] {
      var n := |cidrs| - 1;
      var init := cidrs[..n];
      NewPoolsSound(init, ipip, masquerade, current, validBlock);
      var pending := NewPools(init, ipip, masquerade, current, validBlock).value;
      var cidr := cidrs[n];
      FirstOverlappingMeaning(cidr, current);
      FirstOverlappingMeaning(cidr, pending);
      forall k | 0 <= k < n
        ensures cidrs[k] == init[k]
      {
      }
      forall i | 0 <= i < n
        ensures !Overlaps(cidr, cidrs[i]) && !Overlaps(cidrs[i], cidr)
      {
        assert pending[i].cidr == cidrs[i];
        OverlapsSymmetric(cidr, cidrs[i]);
      }
    }
  }

  /** Any exit comes from the first CIDR, in order, that fails a check. */
  lemma {:induction false} NewPoolsPrefixFails(cidrs: seq<Cidr>, n: nat, ipip: bool, masquerade: bool, current: seq<Pool>,
                            validBlock: Cidr -> bool)
    requires n <= |cidrs| && NewPools(cidrs[..n], ipip, masquerade, current, validBlock).Err?
    ensures NewPools(cidrs, ipip, masquerade, current, validBlock) == NewPools(cidrs[..n], ipip, masquerade, current, validBlock)
    decreases |cidrs| - n
  {
    if n < |cidrs| {
      assert cidrs[..n + 1][..n] == cidrs[..n];
      NewPoolsPrefixFails(cidrs, n + 1, ipip, masquerade, current, validBlock);
    } else {
      assert cidrs[..n] == cidrs;
    }
  }

  /** `ip_pool_add`: every new CIDR is checked against the existing pools
      and the new pools before it, and only then are the pools added;
      `added` is the sequence of `add_ip_pool` calls, empty on any exit. */
  method IpPoolAdd(cidrs: seq<Cidr>, version: int, ipip: bool, masquerade: bool, current: seq<Pool>,
                   validBlock: Cidr -> bool) returns (r: Result<(), AddError>, added: seq<Pool>)
    ensures r.Err? <==> PoolAdd(cidrs, version, ipip, masquerade, current, validBlock).Err?
    ensures r.Err? ==> r.error == PoolAdd(cidrs, version, ipip, masquerade, current, validBlock).error && added == []
    ensures r.Ok? ==> added == PoolAdd(cidrs, version, ipip, masquerade, current, validBlock).value
  {
    added := [];
    if version == 6 && ipip {
      return Err(IpipOnIpv6), added;
    }
    var newPools: seq<Pool> := [];
    var k := 0;
    while k < |cidrs|
      invariant 0 <= k <= |cidrs|
      invariant NewPools(cidrs[..k], ipip, masquerade, current, validBlock) == Ok(newPools)
    {
      var cidr := cidrs[k];
      assert cidrs[..k + 1][..k] == cidrs[..k];
      assert cidrs[..k + 1][k] == cidr;
      if !validBlock(cidr) {
        NewPoolsPrefixFails(cidrs, k + 1, ipip, masquerade, current, validBlock);
        return Err(InvalidBlockSize(cidr)), added;
      }
      var overlapping := GetOverlappingPool(cidr, current);
      if overlapping.Some? {
        NewPoolsPrefixFails(cidrs, k + 1, ipip, masquerade, current, validBlock);
        return Err(OverlapsExisting(cidr, overlapping.value.cidr)), added;
      }
      overlapping := GetOverlappingPool(cidr, newPools);
      if overlapping.Some? {
        NewPoolsPrefixFails(cidrs, k + 1, ipip, masquerade, current, validBlock);
        return Err(OverlapsNew(cidr, overlapping.value.cidr)), added;
      }
      newPools := newPools + [Pool(cidr, ipip, masquerade)];
      k := k + 1;
    }
    assert cidrs[..k] == cidrs;
    var j := 0;
    while j < |newPools|
      invariant 0 <= j <= |newPools|
      invariant added == newPools[..j]
    {
      added := added + [newPools[j]];
      assert newPools[..j + 1] == newPools[..j] + [newPools[j]];
      j := j + 1;
    }
    assert newPools[..j] == newPools;
    r := Ok(());
  }

  // ---------------------------------------------------------------------
  // validate_arguments.

  /** An address argument: absent, not an address of either version, or a
      parsed address. */
  datatype IpArg = NoIp | BadIp | Ip(version: int, value: int)

  datatype RangeError = InvalidStartIp | InvalidEndIp | VersionMismatch | StartNotBelowEnd

  /** The range checks of `validate_arguments`, in their order; Ok when the
      range may be added. */
  function ValidateRange(start: IpArg, end: IpArg): (r: Result<(), RangeError>)
    ensures r.Ok? <==> start.Ip? && end.Ip? && start.version == end.version && start.value < end.value
  {
    if !start.Ip? then Err(InvalidStartIp)
    else if !end.Ip? then Err(InvalidEndIp)
    else if start.version != end.version then Err(VersionMismatch)
    else if !(start.value < end.value) then Err(StartNotBelowEnd)
    else Ok(())
  }

  /** The checks of `validate_arguments`: a non-empty CIDR list is checked
      entry by entry (None is an invalid CIDR); otherwise a range, when
      either end is given. */
  function ValidateArguments(cidrs: seq<Option<Cidr>>, start: IpArg, end: IpArg): (r: Result<(), Option<RangeError>>)
    ensures cidrs != [] ==> (r.Ok? <==> forall k :: 0 <= k < |cidrs| ==> cidrs[k].Some?)
    ensures cidrs == [] && start == NoIp && end == NoIp ==> r.Ok?
    ensures cidrs == [] && (start != NoIp || end != NoIp) ==>
      (r.Ok? <==> ValidateRange(start, end).Ok?)
  {
    if cidrs != [] then
      if forall k :: 0 <= k < |cidrs| ==> cidrs[k].Some? then Ok(()) else Err(None)
    else if start != NoIp || end != NoIp then
      match ValidateRange(start, end)
      case Ok(_) => Ok(())
      case Err(e) => Err(Some(e))
    else Ok(())
  }

  /** The cases of the unit tests: a descending range, an unparsable end and
      mixed versions are refused; an ascending IPv4 range is accepted. */
  lemma RangeTestCases()
    ensures ValidateRange(Ip(4, 0x010203ff), Ip(4, 0x01020301)) == Err(StartNotBelowEnd)
    ensures ValidateRange(Ip(4, 0x01020300), BadIp) == Err(InvalidEndIp)
    ensures ValidateRange(BadIp, Ip(4, 0x01020301)) == Err(InvalidStartIp)
    ensures ValidateRange(Ip(4, 0x010203ff), Ip(6, 0xaaaa0000000000000000000000000000)) == Err(VersionMismatch)
    ensures ValidateRange(Ip(4, 0x01020300), Ip(4, 0x010203ff)) == Ok(())
  {
  }
}
