/** ChainResource: the tiers sorted by level, resolved front to back; the
    first fresh hit is returned and written back into every writable tier
    in front of it. */
module Chain {
  import opened Results
  import opened Storages
  import opened Ordering
  import opened Resolution

  class ChainResource<T> {
    /** The tiers in ascending level order (ties keep their given order). */
    const tiers: seq<Storage<T>>
    /** The reads and writes this chain has issued, by index into `tiers`. */
    ghost var trace: seq<Event<T>>

    /** No tier object occurs twice, so an index names one tier. */
    predicate Valid()
    {
      Distinct(tiers)
    }

    /** Sorts the given tiers by level, stably. */
    constructor (storages: seq<Storage<T>>)
      requires Distinct(storages)
      ensures tiers == SortByLevel(storages)
      ensures SortedByLevel(tiers) && multiset(tiers) == multiset(storages)
      ensures Valid() && trace == []
    {
      tiers := SortByLevel(storages);
      trace := [];
    }

    /** GetValue, at time `now`: does what Resolve prescribes for the tiers'
        values at the call. `ok` is false when a tier's read throws out of
        the call, which then returns nothing (`r` is the empty result). */
    method GetValue(now: int) returns (r: Result<T>, ok: bool)
      requires Valid()
      modifies this, tiers
      ensures ok == !Resolve(old(Views(tiers)), now).raised
      ensures r == Resolve(old(Views(tiers)), now).result
      ensures trace == old(trace) + Resolve(old(Views(tiers)), now).events
      ensures Views(tiers) == Resolve(old(Views(tiers)), now).after
    {
      ghost var before := Views(tiers);
      r, ok := RetrieveUpdateValueFromStorages(now);
      AfterIsStateAfter(before, now);
      assert Views(tiers) == Resolve(before, now).after;
    }

    /** Walks the tiers in order, skipping those that cannot be read; the
        first read that has a value and leaves its tier unexpired is
        written back and returned. A read that throws ends the call
        (`ok` false) with nothing written. */
    method RetrieveUpdateValueFromStorages(now: int) returns (r: Result<T>, ok: bool)
      requires Valid()
      modifies this, tiers
      ensures ok == !Resolve(old(Views(tiers)), now).raised
      ensures r == Resolve(old(Views(tiers)), now).result
      ensures trace == old(trace) + Resolve(old(Views(tiers)), now).events
      ensures forall m :: 0 <= m < |tiers| ==> tiers[m].View() == StateAfter(old(Views(tiers)), now, m)
    {
      ghost var before := Views(tiers);
      var i, value, returned, issued := FindSource(now, before);
      trace := trace + issued;
      if !returned {
        ResolveAtThrow(before, now, i);
        return Empty(), false;
      }
      if i < |tiers| {
        ResolveAtSource(before, now, i);
        label walked:
        UpdateLowerStorageLevels(tiers[i], value.value, now, i, before);
        AppendAssoc(old(trace), ReadsUpTo(before, i + 1), WritesBelow(before, value.value, i));
        forall m | 0 <= m < |tiers|
          ensures tiers[m].View() == StateAfter(before, now, m)
        {
          if m < i {
            assert old@walked(tiers[m].View()) == ReadBy(before[m]);
          }
        }
        return Result(true, value.value), true;
      }
      ResolveWithoutSource(before, now);
      return Empty(), true;
    }

    /** The walk of RetrieveUpdateValueFromStorages up to its source: `i`
        is the index of the first tier whose read throws (`returned` false)
        or is accepted (with that read's `value`), or |tiers| when there is
        none; `issued` lists the reads made on the way. */
    method FindSource(now: int, ghost before: seq<Tier<T>>)
      returns (i: nat, value: Result<T>, returned: bool, ghost issued: seq<Event<T>>)
      requires Valid() && |before| == |tiers|
      requires forall m :: 0 <= m < |tiers| ==> tiers[m].View() == before[m]
      modifies tiers
      ensures i <= |tiers| && (i == |tiers| ==> returned)
      ensures forall j :: 0 <= j < i ==> !Accepts(before[j], now) && !ReadThrows(before[j])
      ensures i < |tiers| && returned ==> Accepts(before[i], now) && value == ReadResult(before[i])
      ensures i < |tiers| && !returned ==> ReadThrows(before[i])
      ensures issued == ReadsUpTo(before, if i < |tiers| then i + 1 else i)
      ensures forall m :: 0 <= m < |tiers| && m <= i ==> tiers[m].View() == ReadBy(before[m])
      ensures forall m :: i < m < |tiers| ==> tiers[m].View() == before[m]
    {
      i, issued := 0, [];
      while i < |tiers|
        invariant 0 <= i <= |tiers|
        invariant forall j :: 0 <= j < i ==> !Accepts(before[j], now) && !ReadThrows(before[j])
        invariant issued == ReadsUpTo(before, i)
        invariant forall m :: 0 <= m < i ==> tiers[m].View() == ReadBy(before[m])
        invariant forall m :: i <= m < |tiers| ==> tiers[m].View() == before[m]
      {
        var storage := tiers[i];
        assert forall m :: 0 <= m < |tiers| && m != i ==> tiers[m] != storage;
        if storage.readable {
          value, returned := storage.Read();
          issued := issued + [Read(i)];
          if !returned || (value.hasValue && !storage.IsExpired(now)) {
            return;
          }
        }
        i := i + 1;
      }
      value, returned := Empty(), true;
    }

    /** Writes `value` to every writable tier in front of `currentStorage`,
        which sits at index `k`, front to back. A write that throws is
        caught and the walk goes on. */
    method UpdateLowerStorageLevels(currentStorage: Storage<T>, value: Option<T>, now: int,
                                    ghost k: nat, ghost flags: seq<Tier<T>>)
      requires Valid() && k < |tiers| && tiers[k] == currentStorage
      requires |flags| == |tiers| && forall m :: 0 <= m < |tiers| ==> flags[m].writable == tiers[m].writable
      modifies this, tiers
      ensures trace == old(trace) + WritesBelow(flags, value, k)
      ensures forall m :: 0 <= m < k ==> tiers[m].View() == Backfilled(old(tiers[m].View()), value, now)
      ensures forall m :: k <= m < |tiers| ==> tiers[m].View() == old(tiers[m].View())
    {
      var currentIndex := IndexOf(tiers, currentStorage);
      IndexOfDistinct(tiers, k);
      var j := 0;
      while j < currentIndex
        invariant 0 <= j <= currentIndex
        invariant trace == old(trace) + WritesBelow(flags, value, j)
        invariant forall m :: 0 <= m < j ==> tiers[m].View() == Backfilled(old(tiers[m].View()), value, now)
        invariant forall m :: j <= m < |tiers| ==> tiers[m].View() == old(tiers[m].View())
      {
        var storage := tiers[j];
        assert forall m :: 0 <= m < |tiers| && m != j ==> tiers[m] != storage;
        if storage.writable {
          // A throwing write is caught and logged; `ok` is not consulted.
          var ok := storage.Write(value, now);
          AppendAssoc(old(trace), WritesBelow(flags, value, j), [Write(j, value)]);
          trace := trace + [Write(j, value)];
        }
        j := j + 1;
      }
    }
  }
}
