/**
 * What the expiry sweep (rcl_action_clear_expired_goals) removes, stated over
 * a snapshot of the registry, and the loop as the source writes it.
 */
module Expiry {
  import opened Optional
  import opened Stamps
  import opened Goals

  /**
   * A goal the sweep finalizes and removes: terminal, readable, and older than
   * the result timeout at the single clock reading `now`.
   */
  predicate Expired(h: GoalHandle, now: int, timeout: int) {
    !IsActive(h) && h.valid && now - ToNanosec(h.info.stamp) > timeout
  }

  /**
   * An expired goal is terminal: it can no longer be canceled, and its info,
   * whose stamp the timeout is measured from, can be read.
   */
  lemma ExpiredIsTerminal(h: GoalHandle, now: int, timeout: int)
    requires Expired(h, now, timeout)
    ensures !IsActive(h) && !IsCancelable(h) && GetInfo(h) == Some(h.info)
    ensures now - ToNanosec(GetInfo(h).value.stamp) > timeout
  {
  }

  /**
   * The sweep's assertion that the clock is strictly ahead of a terminal goal's
   * stamp, together with the int64 subtraction not overflowing.
   */
  predicate ClockAhead(h: GoalHandle, now: int) {
    IsActive(h) || !h.valid ||
    (ToNanosec(h.info.stamp) < now && now - ToNanosec(h.info.stamp) <= Int64Max)
  }

  /** The sweep's clock assertion holds for every handle of the registry. */
  predicate AllClockAhead(s: seq<GoalHandle>, now: int) {
    forall k :: 0 <= k < |s| ==> ClockAhead(s[k], now)
  }

  /** Compaction only moves handles, so the clock assertion keeps holding. */
  lemma CompactionKeepsClockAhead(s: seq<GoalHandle>, i: nat, now: int)
    requires i < |s| && AllClockAhead(s, now)
    ensures AllClockAhead(RemoveCompacted(s, i), now)
  {
    var r := RemoveCompacted(s, i);
    forall k | 0 <= k < |r| ensures ClockAhead(r[k], now) {
      assert r[k] == (if k == i then s[|s| - 1] else s[k]);
    }
  }

  /** The handles a sweep keeps, in their original relative order. */
  function Unexpired(s: seq<GoalHandle>, now: int, timeout: int): seq<GoalHandle> {
    if s == [] then []
    else (if Expired(s[0], now, timeout) then [] else [s[0]]) + Unexpired(s[1..], now, timeout)
  }

  /** How many handles a sweep removes. */
  function CountExpired(s: seq<GoalHandle>, now: int, timeout: int): nat {
    if s == [] then 0
    else (if Expired(s[0], now, timeout) then 1 else 0) + CountExpired(s[1..], now, timeout)
  }

  /** A sweep keeps exactly the handles that are not expired, each as often as it occurs. */
  lemma {:induction false} UnexpiredCount(s: seq<GoalHandle>, now: int, timeout: int, x: GoalHandle)
    ensures multiset(Unexpired(s, now, timeout))[x] == if Expired(x, now, timeout) then 0 else multiset(s)[x]
  {
    if s != [] {
      UnexpiredCount(s[1..], now, timeout, x);
      assert s == [s[0]] + s[1..];
    }
  }

  /** Kept and removed handles together account for the whole registry. */
  lemma {:induction false} UnexpiredSize(s: seq<GoalHandle>, now: int, timeout: int)
    ensures |Unexpired(s, now, timeout)| + CountExpired(s, now, timeout) == |s|
  {
    if s != [] {
      UnexpiredSize(s[1..], now, timeout);
    }
  }

  /** A handle survives the sweep exactly when it was tracked and is not expired; active goals always survive. */
  lemma UnexpiredMembers(s: seq<GoalHandle>, now: int, timeout: int)
    ensures forall h :: h in Unexpired(s, now, timeout) <==> h in s && !Expired(h, now, timeout)
    ensures forall h :: h in s && IsActive(h) ==> h in Unexpired(s, now, timeout)
  {
    forall h {
      UnexpiredCount(s, now, timeout, h);
    }
  }

  /**
   * The sweep as the source intends it, from slot i of the live handles: an
   * expired handle is replaced by the last one, which is examined in turn; an
   * unexpired one is kept and the sweep moves on.  The result is what remains.
   */
  function SweepFrom(live: seq<GoalHandle>, i: nat, now: int, timeout: int): seq<GoalHandle>
    requires i <= |live|
    decreases |live| - i
  {
    if i == |live| then live
    else if Expired(live[i], now, timeout) then SweepFrom(RemoveCompacted(live, i), i, now, timeout)
    else SweepFrom(live, i + 1, now, timeout)
  }

  /**
   * The sweep leaves the slots before i as they were, and once those hold no
   * expired handle, it leaves no expired handle anywhere.
   */
  lemma {:induction false} SweepFromLeavesNoExpired(live: seq<GoalHandle>, i: nat, now: int, timeout: int)
    requires i <= |live|
    decreases |live| - i, |live|
    ensures i <= |SweepFrom(live, i, now, timeout)| <= |live|
    ensures forall k :: 0 <= k < i ==> SweepFrom(live, i, now, timeout)[k] == live[k]
    ensures (forall k :: 0 <= k < i ==> !Expired(live[k], now, timeout)) ==>
      forall k :: 0 <= k < |SweepFrom(live, i, now, timeout)| ==> !Expired(SweepFrom(live, i, now, timeout)[k], now, timeout)
  {
    if i < |live| {
      if Expired(live[i], now, timeout) {
        SweepFromLeavesNoExpired(RemoveCompacted(live, i), i, now, timeout);
      } else {
        SweepFromLeavesNoExpired(live, i + 1, now, timeout);
      }
    }
  }

  /**
   * A split of the registry into handles that are all unexpired and handles
   * that are all expired is the sweep's outcome: the first part is, up to
   * order, what Unexpired keeps, and the second has CountExpired elements.
   */
  lemma SweptPartition(kept: seq<GoalHandle>, removed: seq<GoalHandle>, s: seq<GoalHandle>, now: int, timeout: int)
    requires multiset(kept) + multiset(removed) == multiset(s)
    requires forall h :: h in kept ==> !Expired(h, now, timeout)
    requires forall h :: h in removed ==> Expired(h, now, timeout)
    ensures multiset(kept) == multiset(Unexpired(s, now, timeout))
    ensures |removed| == CountExpired(s, now, timeout)
  {
    forall x
      ensures multiset(kept)[x] == multiset(Unexpired(s, now, timeout))[x]
    {
      UnexpiredCount(s, now, timeout, x);
      if Expired(x, now, timeout) {
        assert x !in kept;
      } else {
        assert x !in removed;
      }
    }
    assert multiset(kept) == multiset(Unexpired(s, now, timeout));
    UnexpiredSize(s, now, timeout);
    assert |multiset(kept)| == |kept|;
    assert |multiset(Unexpired(s, now, timeout))| == |Unexpired(s, now, timeout)|;
    assert |multiset(s)| == |s|;
  }

  /** Expired handles are readable, so removing them does not change whether every handle is readable. */
  lemma ReadableAcrossPartition(kept: seq<GoalHandle>, removed: seq<GoalHandle>, s: seq<GoalHandle>, now: int, timeout: int)
    requires multiset(kept) + multiset(removed) == multiset(s)
    requires forall h :: h in removed ==> Expired(h, now, timeout)
    ensures AllReadable(kept) <==> AllReadable(s)
  {
    forall h ensures h in s <==> h in kept || h in removed {
      assert h in multiset(s) <==> h in multiset(kept) || h in multiset(removed);
    }
    if AllReadable(kept) {
      forall k | 0 <= k < |s| ensures s[k].valid {
        assert s[k] in s;
      }
    }
    if AllReadable(s) {
      forall k | 0 <= k < |kept| ensures kept[k].valid {
        assert kept[k] in kept;
      }
    }
  }

  /** When nothing is expired the sweep keeps everything. */
  lemma NothingExpired(live: seq<GoalHandle>, now: int, timeout: int)
    requires forall k :: 0 <= k < |live| ==> !Expired(live[k], now, timeout)
    ensures multiset(live) == multiset(Unexpired(live, now, timeout))
    ensures CountExpired(live, now, timeout) == 0
  {
    SweptPartition(live, [], live, now, timeout);
  }

  /** Removing one expired handle changes neither what is kept nor whether all handles are readable. */
  lemma RemoveExpired(live: seq<GoalHandle>, i: nat, now: int, timeout: int)
    requires i < |live| && Expired(live[i], now, timeout)
    ensures multiset(Unexpired(RemoveCompacted(live, i), now, timeout)) == multiset(Unexpired(live, now, timeout))
    ensures |live| - CountExpired(live, now, timeout) ==
      |RemoveCompacted(live, i)| - CountExpired(RemoveCompacted(live, i), now, timeout)
    ensures AllReadable(RemoveCompacted(live, i)) <==> AllReadable(live)
  {
    var r := RemoveCompacted(live, i);
    forall x ensures multiset(Unexpired(r, now, timeout))[x] == multiset(Unexpired(live, now, timeout))[x] {
      UnexpiredCount(r, now, timeout, x);
      UnexpiredCount(live, now, timeout, x);
    }
    assert multiset(Unexpired(r, now, timeout)) == multiset(Unexpired(live, now, timeout));
    assert |Unexpired(r, now, timeout)| == |Unexpired(live, now, timeout)| by {
      assert |multiset(Unexpired(r, now, timeout))| == |Unexpired(r, now, timeout)|;
      assert |multiset(Unexpired(live, now, timeout))| == |Unexpired(live, now, timeout)|;
    }
    UnexpiredSize(r, now, timeout);
    UnexpiredSize(live, now, timeout);
    ReadableAcrossPartition(r, [live[i]], live, now, timeout);
  }

  /**
   * The sweep keeps, up to order, exactly what Unexpired keeps, removes
   * CountExpired handles, and leaves every handle readable exactly when
   * every handle was (removed handles are readable).
   */
  lemma {:induction false} SweepFromSpec(live: seq<GoalHandle>, i: nat, now: int, timeout: int)
    requires i <= |live|
    requires forall k :: 0 <= k < i ==> !Expired(live[k], now, timeout)
    ensures multiset(SweepFrom(live, i, now, timeout)) == multiset(Unexpired(live, now, timeout))
    ensures |SweepFrom(live, i, now, timeout)| == |live| - CountExpired(live, now, timeout)
    ensures AllReadable(SweepFrom(live, i, now, timeout)) <==> AllReadable(live)
    decreases |live| - i, |live|
  {
    if i == |live| {
      NothingExpired(live, now, timeout);
    } else if Expired(live[i], now, timeout) {
      RemoveExpired(live, i, now, timeout);
      SweepFromSpec(RemoveCompacted(live, i), i, now, timeout);
    } else {
      SweepFromSpec(live, i + 1, now, timeout);
    }
  }

  /** With unique identities, no expired identity is tracked after the sweep. */
  lemma ExpiredNoLongerTracked(kept: seq<GoalHandle>, s: seq<GoalHandle>, now: int, timeout: int, i: nat)
    requires UniqueUuids(s)
    requires multiset(kept) == multiset(Unexpired(s, now, timeout))
    requires i < |s| && Expired(s[i], now, timeout)
    ensures !Tracks(kept, s[i].info.uuid)
  {
    UnexpiredMembers(s, now, timeout);
    forall k | 0 <= k < |kept|
      ensures !HasUuid(kept[k], s[i].info.uuid)
    {
      assert kept[k] in multiset(Unexpired(s, now, timeout));
      assert kept[k] in s;
      var j :| 0 <= j < |s| && s[j] == kept[k];
      assert j != i;
    }
  }

  /**
   * Whatever order the sweep leaves the survivors in, their identities stay
   * unique and none of them is the identity of a goal the sweep removed.
   */
  lemma SweepKeepsUnique(kept: seq<GoalHandle>, s: seq<GoalHandle>, now: int, timeout: int)
    requires UniqueUuids(s)
    requires multiset(kept) == multiset(Unexpired(s, now, timeout))
    ensures UniqueUuids(kept)
    ensures forall i :: 0 <= i < |s| && Expired(s[i], now, timeout) ==> !Tracks(kept, s[i].info.uuid)
  {
    forall x {
      UnexpiredCount(s, now, timeout, x);
    }
    SubMultisetKeepsUnique(kept, s);
    forall i | 0 <= i < |s| && Expired(s[i], now, timeout)
      ensures !Tracks(kept, s[i].info.uuid)
    {
      ExpiredNoLongerTracked(kept, s, now, timeout, i);
    }
  }



  /** The sweep loop as written, up to the first out-of-range read. */
  datatype SweepOutcome =
    | Swept(slots: seq<GoalHandle>, live: nat, expired: nat)
    | ReadPastEnd(index: nat)

  /**
   * The loop of the source: on an expiry the slot is refilled from index
   * `num` (one past the last live slot), `num` is decremented afterwards, and
   * `i` advances in every case.  The allocation holds |slots| entries.
   */
  function SweepAsWritten(slots: seq<GoalHandle>, i: nat, num: nat, expired: nat, now: int, timeout: int): (r: SweepOutcome)
    requires i <= num + 1 && num <= |slots|
    decreases num + 1 - i
    ensures r.ReadPastEnd? ==> r.index == |slots|
    ensures r.Swept? ==> |r.slots| == |slots| && r.live + r.expired == num + expired
  {
    if i >= num then Swept(slots, num, expired)
    else if !Expired(slots[i], now, timeout) then SweepAsWritten(slots, i + 1, num, expired, now, timeout)
    else if num == |slots| then ReadPastEnd(num)
    else SweepAsWritten(slots[i := slots[num]], i + 1, num - 1, expired + 1, now, timeout)
  }

  /**
   * Since the allocation is grown one slot per accepted goal, it holds exactly
   * the live goals; the first expiry then reads one past its end.
   */
  lemma {:induction false} SweepAsWrittenReadsPastEnd(slots: seq<GoalHandle>, i: nat, now: int, timeout: int, k: nat)
    requires i <= k < |slots| && Expired(slots[k], now, timeout)
    ensures SweepAsWritten(slots, i, |slots|, 0, now, timeout) == ReadPastEnd(|slots|)
    decreases k - i
  {
    if !Expired(slots[i], now, timeout) {
      SweepAsWrittenReadsPastEnd(slots, i + 1, now, timeout, k);
    }
  }

  /**
   * The loop with only its read index repaired (the last live slot, num - 1):
   * `i` still advances past the slot that was just refilled.
   */
  function SweepSkipping(slots: seq<GoalHandle>, i: nat, num: nat, expired: nat, now: int, timeout: int): (r: SweepOutcome)
    requires i <= num + 1 && num <= |slots|
    decreases num + 1 - i
    ensures r.Swept? && r.live + r.expired == num + expired
  {
    if i >= num then Swept(slots, num, expired)
    else if !Expired(slots[i], now, timeout) then SweepSkipping(slots, i + 1, num, expired, now, timeout)
    else SweepSkipping(slots[i := slots[num - 1]], i + 1, num - 1, expired + 1, now, timeout)
  }

  /** Two expired goals: the second is moved into the first slot and never examined. */
  lemma SweepSkippingKeepsExpired(a: GoalHandle, b: GoalHandle, now: int, timeout: int)
    requires Expired(a, now, timeout) && Expired(b, now, timeout)
    ensures SweepSkipping([a, b], 0, 2, 0, now, timeout).live == 1
    ensures Expired(SweepSkipping([a, b], 0, 2, 0, now, timeout).slots[0], now, timeout)
    ensures Unexpired([a, b], now, timeout) == []
  {
    assert [a, b][0 := b] == [b, b];
    assert [a, b][1..] == [b];
    assert [b][1..] == [];
    assert Unexpired([b], now, timeout) == [];
  }

  /**
   * What the source stores as the goal count after its loop: the count is
   * only committed when the array was shrunk successfully, and not at all
   * when every goal expired (the array is freed instead).
   */
  function CommitCountAsWritten(stored: nat, live: nat, expired: nat, shrinkOk: bool): (r: nat)
    ensures expired == 0 ==> r == stored
    ensures expired > 0 && live > 0 && shrinkOk ==> r == live
    ensures expired > 0 && (live == 0 || !shrinkOk) ==> r == stored
  {
    if expired == 0 then stored
    else if live == 0 then stored
    else if shrinkOk then live
    else stored
  }

  /** After every goal expires, or after a failed shrink, the registry still claims the old count. */
  lemma StaleCountAfterExpiry(n: nat)
    requires n > 0
    ensures CommitCountAsWritten(n, 0, n, true) == n
    ensures CommitCountAsWritten(n + 1, n, 1, false) == n + 1
  {
  }
}
