/** What one resolution over a level-sorted list of tiers does, stated as a
    function of the tiers' values before the call: which tier is the source,
    which reads and writes are issued and in which order, what is returned
    and what every tier holds afterwards. ChainResource.GetValue is proved
    to do exactly this. */
module Resolution {
  import opened Results
  import opened Storages

  /** A call the chain makes on the tier at an index of its sorted list. */
  datatype Event<T> = Read(index: nat) | Write(index: nat, value: Option<T>)

  /** The tier's read is accepted: the tier is readable, its read returns
      with a value, and the tier is not expired once the read is done. */
  predicate Accepts<T>(v: Tier<T>, now: int)
  {
    v.readable && !ReadFails(v) && ReadResult(v).hasValue && !Expired(AfterRead(v), now)
  }

  /** The walk reads the tier and the read throws. */
  predicate ReadThrows<T>(v: Tier<T>)
  {
    v.readable && ReadFails(v)
  }

  /** The index of the first tier whose read is accepted, if any. */
  function FirstAccepting<T>(vs: seq<Tier<T>>, now: int): (r: Option<nat>)
    ensures r.Some? ==> r.value < |vs| && Accepts(vs[r.value], now)
    ensures forall j :: 0 <= j < |vs| && (r.None? || j < r.value) ==> !Accepts(vs[j], now)
  {
    if vs == [] then None
    else if Accepts(vs[0], now) then Some(0)
    else
      match FirstAccepting(vs[1..], now)
      case None => None
      case Some(k) => Some(k + 1)
  }

  /** The index of the tier whose read throws out of the walk, if any: the
      first tier whose read throws, provided no earlier tier is accepted. */
  function FirstThrow<T>(vs: seq<Tier<T>>, now: int): (r: Option<nat>)
    ensures r.Some? ==> r.value < |vs| && ReadThrows(vs[r.value])
    ensures r.Some? ==> forall j :: 0 <= j < r.value ==> !ReadThrows(vs[j]) && !Accepts(vs[j], now)
    ensures r.None? ==> forall j :: 0 <= j < |vs| && (FirstAccepting(vs, now).None? || j < FirstAccepting(vs, now).value) ==>
      !ReadThrows(vs[j])
  {
    if vs == [] then None
    else if ReadThrows(vs[0]) then Some(0)
    else if Accepts(vs[0], now) then None
    else
      match FirstThrow(vs[1..], now)
      case None => None
      case Some(f) => Some(f + 1)
  }

  /** One read of every readable tier below index `n`, in ascending order. */
  function ReadsUpTo<T>(vs: seq<Tier<T>>, n: nat): seq<Event<T>>
    requires n <= |vs|
  {
    if n == 0 then []
    else if vs[n - 1].readable then ReadsUpTo(vs, n - 1) + [Read(n - 1)]
    else ReadsUpTo(vs, n - 1)
  }

  /** One write of `x` to every writable tier below index `k`, in ascending order. */
  function WritesBelow<T>(vs: seq<Tier<T>>, x: Option<T>, k: nat): seq<Event<T>>
    requires k <= |vs|
  {
    if k == 0 then []
    else if vs[k - 1].writable then WritesBelow(vs, x, k - 1) + [Write(k - 1, x)]
    else WritesBelow(vs, x, k - 1)
  }

  /** The tier after the walk has passed it: read if readable. */
  function ReadBy<T>(v: Tier<T>): Tier<T>
  {
    if v.readable then AfterRead(v) else v
  }

  /** The tier after the backfill has passed it: written if writable. */
  function Backfilled<T>(v: Tier<T>, x: Option<T>, now: int): Tier<T>
  {
    if v.writable then AfterWrite(v, x, now) else v
  }

  /** What one call does: whether it ends by an exception, what it returns
      (the empty result when it throws), the calls it makes on the tiers
      and every tier's value afterwards. */
  datatype Outcome<T> = Outcome(raised: bool, result: Result<T>, events: seq<Event<T>>, after: seq<Tier<T>>)

  /** The reference resolution at time `now`. When the walk reaches a tier
      whose read throws (index f) before any tier is accepted, the readable
      tiers up to f are read, nothing is written and the exception leaves
      the call. Otherwise, with a source at index k, the readable tiers up
      to k are read, the writable tiers below k are written the source's
      value, and that value is returned; without one, every readable tier
      is read, nothing is written and the result is empty. */
  function Resolve<T>(vs: seq<Tier<T>>, now: int): Outcome<T>
  {
    match FirstThrow(vs, now)
    case Some(f) =>
      Outcome(true, Empty(), ReadsUpTo(vs, f + 1), seq(|vs|, m requires 0 <= m < |vs| => StateAfter(vs, now, m)))
    case None =>
      Outcome(false, ResultOf(vs, now), EventsOf(vs, now), seq(|vs|, m requires 0 <= m < |vs| => StateAfter(vs, now, m)))
  }

  /** The value of the tier at index `m` after the call. */
  function StateAfter<T>(vs: seq<Tier<T>>, now: int, m: nat): Tier<T>
    requires m < |vs|
  {
    match FirstThrow(vs, now)
    case Some(f) => if m <= f then ReadBy(vs[m]) else vs[m]
    case None => TierAfter(vs, now, m)
  }

  // ---- The walk when no read throws ----

  function ResultOf<T>(vs: seq<Tier<T>>, now: int): Result<T>
  {
    match FirstAccepting(vs, now)
    case Some(k) => Result(true, ReadResult(vs[k]).value)
    case None => Empty()
  }

  function EventsOf<T>(vs: seq<Tier<T>>, now: int): seq<Event<T>>
  {
    match FirstAccepting(vs, now)
    case Some(k) => ReadsUpTo(vs, k + 1) + WritesBelow(vs, ReadResult(vs[k]).value, k)
    case None => ReadsUpTo(vs, |vs|)
  }

  /** The value of the tier at index `m` after the resolution. */
  function TierAfter<T>(vs: seq<Tier<T>>, now: int, m: nat): Tier<T>
    requires m < |vs|
  {
    match FirstAccepting(vs, now)
    case Some(k) =>
      if m < k then Backfilled(ReadBy(vs[m]), ReadResult(vs[k]).value, now)
      else if m == k then ReadBy(vs[m])
      else vs[m]
    case None => ReadBy(vs[m])
  }

  /** When the tier at index k is the first to accept and no read before
      it throws, the resolution returns its value, reads up to it,
      backfills in front of it and leaves the tiers past it alone. */
  lemma ResolveAtSource<T>(vs: seq<Tier<T>>, now: int, k: nat)
    requires k < |vs| && Accepts(vs[k], now)
    requires forall j :: 0 <= j < k ==> !Accepts(vs[j], now) && !ReadThrows(vs[j])
    ensures FirstAccepting(vs, now) == Some(k) && FirstThrow(vs, now).None?
    ensures !Resolve(vs, now).raised
    ensures Resolve(vs, now).result == Result(true, ReadResult(vs[k]).value)
    ensures Resolve(vs, now).events == ReadsUpTo(vs, k + 1) + WritesBelow(vs, ReadResult(vs[k]).value, k)
    ensures forall m :: 0 <= m < k ==> StateAfter(vs, now, m) == Backfilled(ReadBy(vs[m]), ReadResult(vs[k]).value, now)
    ensures StateAfter(vs, now, k) == ReadBy(vs[k])
    ensures forall m :: k < m < |vs| ==> StateAfter(vs, now, m) == vs[m]
  {
  }

  /** When no tier accepts and no read throws, the resolution reads every
      readable tier, writes nothing, returns the empty result and leaves
      every tier only read. */
  lemma ResolveWithoutSource<T>(vs: seq<Tier<T>>, now: int)
    requires forall j :: 0 <= j < |vs| ==> !Accepts(vs[j], now) && !ReadThrows(vs[j])
    ensures FirstAccepting(vs, now).None? && FirstThrow(vs, now).None?
    ensures !Resolve(vs, now).raised
    ensures Resolve(vs, now).result == Empty()
    ensures Resolve(vs, now).events == ReadsUpTo(vs, |vs|)
    ensures forall m :: 0 <= m < |vs| ==> StateAfter(vs, now, m) == ReadBy(vs[m])
  {
  }

  /** When the read of tier f throws and no tier before it is accepted, the
      call reads the readable tiers up to f, writes nothing, leaves every
      tier from f on as it was, and ends by the exception. */
  lemma ResolveAtThrow<T>(vs: seq<Tier<T>>, now: int, f: nat)
    requires f < |vs| && ReadThrows(vs[f])
    requires forall j :: 0 <= j < f ==> !Accepts(vs[j], now) && !ReadThrows(vs[j])
    ensures FirstThrow(vs, now) == Some(f)
    ensures Resolve(vs, now).raised && Resolve(vs, now).result == Empty()
    ensures Resolve(vs, now).events == ReadsUpTo(vs, f + 1)
    ensures forall m :: 0 <= m < f ==> StateAfter(vs, now, m) == ReadBy(vs[m])
    ensures forall m :: f <= m < |vs| ==> StateAfter(vs, now, m) == vs[m]
  {
  }

  /** The tiers the walk gets to: up to the tier whose read throws, else up
      to the source, else all. */
  predicate Consulted<T>(vs: seq<Tier<T>>, now: int, j: nat)
  {
    j < |vs| &&
    match FirstThrow(vs, now)
    case Some(f) => j <= f
    case None => FirstAccepting(vs, now).None? || j <= FirstAccepting(vs, now).value
  }

  // ---- The event lists ----

  /** Appending to a trace in two steps is appending the two parts at once. */
  lemma AppendAssoc<E>(a: seq<E>, b: seq<E>, c: seq<E>)
    ensures (a + b) + c == a + (b + c)
  {
  }

  /** ReadsUpTo holds only reads of tiers below `n`, in ascending order. */
  lemma {:induction false} ReadsUpToAscending<T>(vs: seq<Tier<T>>, n: nat)
    requires n <= |vs|
    ensures forall p :: 0 <= p < |ReadsUpTo(vs, n)| ==> ReadsUpTo(vs, n)[p].Read? && ReadsUpTo(vs, n)[p].index < n
    ensures forall p, q :: 0 <= p < q < |ReadsUpTo(vs, n)| ==> ReadsUpTo(vs, n)[p].index < ReadsUpTo(vs, n)[q].index
  {
    if n > 0 {
      ReadsUpToAscending(vs, n - 1);
    }
  }

  /** ReadsUpTo reads every readable tier below `n` exactly once and no other tier. */
  lemma {:induction false} ReadsUpToCount<T>(vs: seq<Tier<T>>, n: nat, j: nat)
    requires n <= |vs|
    ensures multiset(ReadsUpTo(vs, n))[Read(j)] == if j < n && vs[j].readable then 1 else 0
  {
    if n > 0 {
      ReadsUpToCount(vs, n - 1, j);
      var prev, last := ReadsUpTo(vs, n - 1), if vs[n - 1].readable then [Read(n - 1)] else [];
      assert ReadsUpTo(vs, n) == prev + last;
      assert multiset(ReadsUpTo(vs, n)) == multiset(prev) + multiset(last);
    }
  }

  /** WritesBelow holds only writes to tiers below `k`, in ascending order. */
  lemma {:induction false} WritesBelowAscending<T>(vs: seq<Tier<T>>, x: Option<T>, k: nat)
    requires k <= |vs|
    ensures forall p :: 0 <= p < |WritesBelow(vs, x, k)| ==> WritesBelow(vs, x, k)[p].Write? && WritesBelow(vs, x, k)[p].index < k
    ensures forall p, q :: 0 <= p < q < |WritesBelow(vs, x, k)| ==> WritesBelow(vs, x, k)[p].index < WritesBelow(vs, x, k)[q].index
  {
    if k > 0 {
      WritesBelowAscending(vs, x, k - 1);
    }
  }

  /** WritesBelow writes `x` to every writable tier below `k` exactly once, and
      writes nothing else. */
  lemma {:induction false} WritesBelowCount<T>(vs: seq<Tier<T>>, x: Option<T>, k: nat, j: nat, y: Option<T>)
    requires k <= |vs|
    ensures multiset(WritesBelow(vs, x, k))[Write(j, y)] == if j < k && vs[j].writable && y == x then 1 else 0
  {
    if k > 0 {
      WritesBelowCount(vs, x, k - 1, j, y);
      var prev, last := WritesBelow(vs, x, k - 1), if vs[k - 1].writable then [Write(k - 1, x)] else [];
      assert WritesBelow(vs, x, k) == prev + last;
      assert multiset(WritesBelow(vs, x, k)) == multiset(prev) + multiset(last);
    }
  }

  /** WritesBelow holds no read. */
  lemma {:induction false} WritesBelowReadNothing<T>(vs: seq<Tier<T>>, x: Option<T>, k: nat, j: nat)
    requires k <= |vs|
    ensures multiset(WritesBelow(vs, x, k))[Read(j)] == 0
  {
    if k > 0 {
      WritesBelowReadNothing(vs, x, k - 1, j);
      var prev, last := WritesBelow(vs, x, k - 1), if vs[k - 1].writable then [Write(k - 1, x)] else [];
      assert WritesBelow(vs, x, k) == prev + last;
      assert multiset(WritesBelow(vs, x, k)) == multiset(prev) + multiset(last);
    }
  }

  /** The event lists depend on the tiers' flags only. */
  lemma {:induction false} SameFlagsSameEvents<T>(vs: seq<Tier<T>>, ws: seq<Tier<T>>, x: Option<T>, n: nat)
    requires n <= |vs| == |ws|
    requires forall j :: 0 <= j < |vs| ==> vs[j].readable == ws[j].readable && vs[j].writable == ws[j].writable
    ensures ReadsUpTo(vs, n) == ReadsUpTo(ws, n)
    ensures WritesBelow(vs, x, n) == WritesBelow(ws, x, n)
  {
    if n > 0 {
      SameFlagsSameEvents(vs, ws, x, n - 1);
    }
  }

  // ---- Properties of a resolution ----

  /** Every readable tier the walk gets to is read exactly once; no other
      tier is read: neither a tier that is not readable nor any tier past
      the source or past a read that throws. */
  lemma ReadsOfResolve<T>(vs: seq<Tier<T>>, now: int, j: nat)
    ensures multiset(Resolve(vs, now).events)[Read(j)] == if Consulted(vs, now, j) && vs[j].readable then 1 else 0
  {
    match FirstThrow(vs, now)
    case Some(f) =>
      assert Resolve(vs, now).events == ReadsUpTo(vs, f + 1);
      ReadsUpToCount(vs, f + 1, j);
    case None =>
      assert Resolve(vs, now).events == EventsOf(vs, now);
      match FirstAccepting(vs, now)
      case Some(k) =>
        var rs, ws := ReadsUpTo(vs, k + 1), WritesBelow(vs, ReadResult(vs[k]).value, k);
        assert EventsOf(vs, now) == rs + ws;
        ReadsUpToCount(vs, k + 1, j);
        WritesBelowReadNothing(vs, ReadResult(vs[k]).value, k, j);
        assert multiset(rs + ws) == multiset(rs) + multiset(ws);
      case None =>
        assert EventsOf(vs, now) == ReadsUpTo(vs, |vs|);
        ReadsUpToCount(vs, |vs|, j);
  }

  /** A tier that is not readable is never read. */
  lemma UnreadableNeverRead<T>(vs: seq<Tier<T>>, now: int, j: nat)
    requires j < |vs| && !vs[j].readable
    ensures Read(j) !in Resolve(vs, now).events
  {
    ReadsOfResolve(vs, now, j);
  }

  /** Once the tier at index k is accepted, no tier past it is read. */
  lemma NothingReadPastSource<T>(vs: seq<Tier<T>>, now: int, k: nat, j: nat)
    requires FirstAccepting(vs, now) == Some(k) && k < j
    ensures Read(j) !in Resolve(vs, now).events
  {
    ReadsOfResolve(vs, now, j);
  }

  /** The call ends by an exception exactly when the walk reaches a tier
      whose read throws: one before which no tier is accepted. */
  lemma RaisesExactlyOnReachedThrow<T>(vs: seq<Tier<T>>, now: int)
    ensures Resolve(vs, now).raised <==>
      exists f :: 0 <= f < |vs| && ReadThrows(vs[f]) && forall j :: 0 <= j < f ==> !Accepts(vs[j], now)
  {
    match FirstThrow(vs, now)
    case Some(f) =>
      assert ReadThrows(vs[f]) && forall j :: 0 <= j < f ==> !Accepts(vs[j], now);
    case None =>
      forall f | 0 <= f < |vs| && ReadThrows(vs[f])
        ensures exists j :: 0 <= j < f && Accepts(vs[j], now)
      {
        var k := FirstAccepting(vs, now).value;
        assert k < f && Accepts(vs[k], now);
      }
  }

  /** With a source at k and no read thrown, every writable tier below k
      receives exactly one write carrying the source's value; no other
      tier, and no other value, is written. A miss, or a call that throws,
      writes nothing. */
  lemma WritesOfResolve<T>(vs: seq<Tier<T>>, now: int, j: nat, y: Option<T>)
    ensures multiset(Resolve(vs, now).events)[Write(j, y)] ==
      if Resolve(vs, now).raised then 0 else
      match FirstAccepting(vs, now)
      case Some(k) => if j < k && vs[j].writable && y == ReadResult(vs[k]).value then 1 else 0
      case None => 0
  {
    var o := Resolve(vs, now);
    match FirstThrow(vs, now)
    case Some(f) =>
      ReadsUpToAscending(vs, f + 1);
      assert Write(j, y) !in ReadsUpTo(vs, f + 1);
    case None =>
      match FirstAccepting(vs, now)
      case Some(k) =>
        var found := ReadResult(vs[k]).value;
        ReadsUpToAscending(vs, k + 1);
        WritesBelowCount(vs, found, k, j, y);
        assert multiset(o.events) == multiset(ReadsUpTo(vs, k + 1)) + multiset(WritesBelow(vs, found, k));
        assert Write(j, y) !in ReadsUpTo(vs, k + 1);
      case None =>
        ReadsUpToAscending(vs, |vs|);
        assert Write(j, y) !in ReadsUpTo(vs, |vs|);
  }

  /** All reads come before all writes; reads and writes each go in
      ascending index order. */
  lemma EventsInOrder<T>(vs: seq<Tier<T>>, now: int)
    ensures var e := Resolve(vs, now).events;
      forall p, q :: 0 <= p < q < |e| ==>
        (e[q].Read? ==> e[p].Read?) &&
        (e[p].Read? == e[q].Read? ==> e[p].index < e[q].index)
  {
    var e := Resolve(vs, now).events;
    match FirstThrow(vs, now)
    case Some(f) =>
      ReadsUpToAscending(vs, f + 1);
    case None =>
      match FirstAccepting(vs, now)
      case Some(k) =>
        var found := ReadResult(vs[k]).value;
        var rs, ws := ReadsUpTo(vs, k + 1), WritesBelow(vs, found, k);
        ReadsUpToAscending(vs, k + 1);
        WritesBelowAscending(vs, found, k);
        assert e == rs + ws;
        forall p, q | 0 <= p < q < |e|
          ensures (e[q].Read? ==> e[p].Read?) && (e[p].Read? == e[q].Read? ==> e[p].index < e[q].index)
        {
          if q < |rs| {
            assert e[p] == rs[p] && e[q] == rs[q];
          } else if p >= |rs| {
            assert e[p] == ws[p - |rs|] && e[q] == ws[q - |rs|];
          } else {
            assert e[p] == rs[p] && e[q] == ws[q - |rs|];
          }
        }
      case None =>
        ReadsUpToAscending(vs, |vs|);
  }

  /** The result has a value exactly when no read throws out of the call
      and some tier's read is accepted, and then it is the value read from
      the first such tier; otherwise it is the empty result, whose value is
      null. */
  lemma ResultOfResolve<T>(vs: seq<Tier<T>>, now: int)
    ensures var r := Resolve(vs, now).result;
      (r.hasValue <==> !Resolve(vs, now).raised && exists j :: 0 <= j < |vs| && Accepts(vs[j], now)) &&
      (r.hasValue ==> exists k :: 0 <= k < |vs| && Accepts(vs[k], now) &&
                        (forall j :: 0 <= j < k ==> !Accepts(vs[j], now)) &&
                        r.value == ReadResult(vs[k]).value) &&
      (!r.hasValue ==> r == Empty() && r.value == None)
  {
    match FirstThrow(vs, now)
    case Some(f) =>
    case None =>
      match FirstAccepting(vs, now)
      case Some(k) =>
      case None =>
  }

  /** A tier whose read returns a value but which is expired after the read
      is never the source, and the walk goes on to read the next readable
      tiers, up to one that is accepted or whose read throws. */
  lemma ExpiredHitIsSkipped<T>(vs: seq<Tier<T>>, now: int, j: nat)
    requires j < |vs| && vs[j].readable && !ReadFails(vs[j]) && ReadResult(vs[j]).hasValue && Expired(AfterRead(vs[j]), now)
    requires forall i :: 0 <= i < j ==> !Accepts(vs[i], now) && !ReadThrows(vs[i])
    ensures FirstAccepting(vs, now) != Some(j)
    ensures forall m :: j < m < |vs| && vs[m].readable && (forall i :: j < i < m ==> !Accepts(vs[i], now) && !ReadThrows(vs[i])) ==>
      Read(m) in Resolve(vs, now).events
  {
    forall m | j < m < |vs| && vs[m].readable && (forall i :: j < i < m ==> !Accepts(vs[i], now) && !ReadThrows(vs[i]))
      ensures Read(m) in Resolve(vs, now).events
    {
      assert forall i :: 0 <= i < m ==> !Accepts(vs[i], now) && !ReadThrows(vs[i]);
      ReadsOfResolve(vs, now, m);
    }
  }

  /** After a hit with no read thrown: tiers past the source are untouched;
      the source and the tiers below it that are not backfill targets are
      only read; a backfill target whose write does not throw holds the
      found value, stamped `now`. */
  lemma StatesAfterResolve<T>(vs: seq<Tier<T>>, now: int, k: nat)
    requires FirstThrow(vs, now).None? && FirstAccepting(vs, now) == Some(k)
    ensures var o := Resolve(vs, now); var found := ReadResult(vs[k]).value;
      |o.after| == |vs| &&
      (forall j :: k < j < |vs| ==> o.after[j] == vs[j]) &&
      o.after[k] == AfterRead(vs[k]) &&
      (forall j :: 0 <= j < k && (!vs[j].writable || WriteFails(vs[j])) ==> o.after[j] == ReadBy(vs[j])) &&
      (forall j :: 0 <= j < k && vs[j].writable && !WriteFails(vs[j]) ==>
         o.after[j].storageValue == found && o.after[j].lastUpdated == Some(now))
  {
    ResolveAtSource(vs, now, k);
    var o := Resolve(vs, now);
    assert forall j :: 0 <= j < |vs| ==> o.after[j] == StateAfter(vs, now, j);
  }

  /** After a miss with no read thrown, every tier has only been read. */
  lemma StatesAfterMiss<T>(vs: seq<Tier<T>>, now: int)
    requires FirstThrow(vs, now).None? && FirstAccepting(vs, now).None?
    ensures var o := Resolve(vs, now);
      |o.after| == |vs| && forall j :: 0 <= j < |vs| ==> o.after[j] == ReadBy(vs[j])
  {
    ResolveWithoutSource(vs, now);
    var o := Resolve(vs, now);
    assert forall j :: 0 <= j < |vs| ==> o.after[j] == StateAfter(vs, now, j);
  }

  /** After a read throws at f: the tiers before f have only been read, and
      the tier at f and every tier past it are as they were. */
  lemma StatesAfterThrow<T>(vs: seq<Tier<T>>, now: int, f: nat)
    requires FirstThrow(vs, now) == Some(f)
    ensures var o := Resolve(vs, now);
      |o.after| == |vs| &&
      (forall j :: 0 <= j < f ==> o.after[j] == ReadBy(vs[j])) &&
      (forall j :: f <= j < |vs| ==> o.after[j] == vs[j])
  {
    ResolveAtThrow(vs, now, f);
    var o := Resolve(vs, now);
    assert forall j :: 0 <= j < |vs| ==> o.after[j] == StateAfter(vs, now, j);
  }

  /** A tier backfilled by one call serves the next: when the call finds a
      non-null value at k and backfills a readable windowed tier j in
      front of it whose read and write do not throw, a later call within
      j's interval accepts j's read, and reads no tier past j. */
  lemma BackfillServesNextCall<T>(vs: seq<Tier<T>>, now: int, k: nat, j: nat, later: int)
    requires FirstThrow(vs, now).None? && FirstAccepting(vs, now) == Some(k) && ReadResult(vs[k]).value.Some?
    requires j < k && vs[j].readable && vs[j].writable && !WriteFails(vs[j]) && !ReadFails(vs[j])
    requires vs[j].expiry.Window? && now <= later <= now + vs[j].expiry.interval
    ensures |Resolve(vs, now).after| == |vs| && Accepts(Resolve(vs, now).after[j], later)
    ensures forall m :: j < m < |vs| ==> Read(m) !in Resolve(Resolve(vs, now).after, later).events
  {
    var found := ReadResult(vs[k]).value;
    ResolveAtSource(vs, now, k);
    var a := Resolve(vs, now).after;
    var v := AfterRead(vs[j]);
    StepsKeepContract(vs[j], found, now);
    StepsKeepContract(v, found, now);
    WriteThenRead(v, found.value, now);
    FreshAfterWrite(v, found, now, later);
    assert a[j] == StateAfter(vs, now, j) == AfterWrite(v, found, now);
    assert Accepts(a[j], later);
    forall m | j < m < |vs|
      ensures Read(m) !in Resolve(a, later).events
    {
      ReadsOfResolve(a, later, m);
    }
  }

  /** The tier with its write made to succeed. */
  function Succeeding<T>(v: Tier<T>): Tier<T>
  {
    if v.backend.External? then v.(backend := v.backend.(writeFails := false)) else v
  }

  /** Tiers that differ only in whether their write throws are read alike. */
  lemma SucceedingReadsAlike<T>(vs: seq<Tier<T>>, ws: seq<Tier<T>>, now: int)
    requires |vs| == |ws| && forall j :: 0 <= j < |vs| ==> Succeeding(vs[j]) == Succeeding(ws[j])
    ensures forall j :: 0 <= j < |vs| ==>
      Accepts(vs[j], now) == Accepts(ws[j], now) && ReadThrows(vs[j]) == ReadThrows(ws[j]) &&
      ReadResult(vs[j]) == ReadResult(ws[j]) &&
      vs[j].readable == ws[j].readable && vs[j].writable == ws[j].writable &&
      (!WriteFails(vs[j]) && !WriteFails(ws[j]) ==> vs[j] == ws[j])
  {
    forall j | 0 <= j < |vs|
      ensures Accepts(vs[j], now) == Accepts(ws[j], now) && ReadThrows(vs[j]) == ReadThrows(ws[j])
      ensures ReadResult(vs[j]) == ReadResult(ws[j])
      ensures vs[j].readable == ws[j].readable && vs[j].writable == ws[j].writable
      ensures !WriteFails(vs[j]) && !WriteFails(ws[j]) ==> vs[j] == ws[j]
    {
      assert Succeeding(vs[j]).lastUpdated == vs[j].lastUpdated;
      assert Succeeding(ws[j]).lastUpdated == ws[j].lastUpdated;
    }
  }

  /** The tier values after the call are those StateAfter gives. */
  lemma AfterIsStateAfter<T>(vs: seq<Tier<T>>, now: int)
    ensures |Resolve(vs, now).after| == |vs|
    ensures forall j :: 0 <= j < |vs| ==> Resolve(vs, now).after[j] == StateAfter(vs, now, j)
  {
  }

  /** Whether backfill writes throw changes neither whether the call
      throws, nor its result, nor the calls made. */
  lemma WriteFaultsAreIsolated<T>(vs: seq<Tier<T>>, ws: seq<Tier<T>>, now: int)
    requires |vs| == |ws| && forall j :: 0 <= j < |vs| ==> Succeeding(vs[j]) == Succeeding(ws[j])
    ensures Resolve(vs, now).raised == Resolve(ws, now).raised
    ensures Resolve(vs, now).result == Resolve(ws, now).result
    ensures Resolve(vs, now).events == Resolve(ws, now).events
  {
    SucceedingReadsAlike(vs, ws, now);
    match FirstThrow(vs, now)
    case Some(f) =>
      ResolveAtThrow(vs, now, f);
      ResolveAtThrow(ws, now, f);
      SameFlagsSameEvents(vs, ws, None, f + 1);
    case None =>
      match FirstAccepting(vs, now)
      case Some(k) =>
        ResolveAtSource(vs, now, k);
        ResolveAtSource(ws, now, k);
        SameFlagsSameEvents(vs, ws, ReadResult(vs[k]).value, k + 1);
        SameFlagsSameEvents(vs, ws, ReadResult(vs[k]).value, k);
      case None =>
        ResolveWithoutSource(vs, now);
        ResolveWithoutSource(ws, now);
        SameFlagsSameEvents(vs, ws, None, |vs|);
  }

  /** Whether backfill writes throw changes only what the throwing tiers
      hold after the call: every other tier ends up the same. */
  lemma WriteFaultsOnlyChangeFailingTiers<T>(vs: seq<Tier<T>>, ws: seq<Tier<T>>, now: int)
    requires |vs| == |ws| && forall j :: 0 <= j < |vs| ==> Succeeding(vs[j]) == Succeeding(ws[j])
    ensures forall j :: 0 <= j < |vs| && !WriteFails(vs[j]) && !WriteFails(ws[j]) ==>
      Resolve(vs, now).after[j] == Resolve(ws, now).after[j]
  {
    SucceedingReadsAlike(vs, ws, now);
    AfterIsStateAfter(vs, now);
    AfterIsStateAfter(ws, now);
    match FirstThrow(vs, now)
    case Some(f) =>
      ResolveAtThrow(vs, now, f);
      ResolveAtThrow(ws, now, f);
    case None =>
      match FirstAccepting(vs, now)
      case Some(k) =>
        ResolveAtSource(vs, now, k);
        ResolveAtSource(ws, now, k);
      case None =>
        ResolveWithoutSource(vs, now);
        ResolveWithoutSource(ws, now);
  }
}
