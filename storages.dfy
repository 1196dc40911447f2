/** The tier contract the chain relies on (IStorage), the shared base state
    and freshness rule of StorageBase, and the in-memory tier. All tiers are
    one class whose `backend` says where a read's answer comes from. */
module Storages {
  import opened Results
  import Freshness

  /** StorageLevel values: lower levels are consulted first. */
  const MemoryLevel: int := 0
  const FileLevel: int := 1
  const WebLevel: int := 2

  /** How a tier judges its freshness: StorageBase's window, or the web
      tier's constant "never expired". */
  datatype Expiry = Window(interval: int) | NeverExpires

  /** Where a read's answer comes from. `InMemory` is MemoryStorage, which
      answers from its own `storageValue`. `External` is a tier whose store
      lies outside the process (file, web service): what its read answers
      now, the stamp that read records into `LastUpdated` (if any), whether
      the read throws and whether a write throws. A write that does not
      throw replaces what the store holds (see `Stored`). */
  datatype Backend<T> =
    | InMemory
    | External(answer: Result<T>, stamp: Option<int>, readFails: bool, writeFails: bool)

  /** The value of one tier at one moment: the constant contract fields and
      the two fields that reads and writes update. */
  datatype Tier<T> = Tier(
    level: int,
    readable: bool,
    writable: bool,
    expiry: Expiry,
    backend: Backend<T>,
    lastUpdated: Option<int>,
    storageValue: Option<T>)

  /** What a read of tier `v` returns. */
  function ReadResult<T>(v: Tier<T>): Result<T>
  {
    match v.backend
    case InMemory =>
      if v.storageValue.None? then Empty() else Result(true, v.storageValue)
    case External(answer, _, _, _) => answer
  }

  /** Whether a read of tier `v` throws. Only an external read can: the
      web tier on a failed request or an undecodable body, the file tier
      on an exception other than a JSON or I/O error. */
  predicate ReadFails<T>(v: Tier<T>)
  {
    v.backend.External? && v.backend.readFails
  }

  /** The tier after a read: only an external tier whose read returns and
      records a stamp changes, and only its `lastUpdated`. */
  function AfterRead<T>(v: Tier<T>): Tier<T>
  {
    match v.backend
    case InMemory => v
    case External(_, stamp, readFails, _) =>
      if stamp.Some? && !readFails then v.(lastUpdated := stamp) else v
  }

  /** Whether a write to tier `v` throws. */
  predicate WriteFails<T>(v: Tier<T>)
  {
    v.backend.External? && v.backend.writeFails
  }

  /** What an external store holds once `x` was written to it at `now`:
      a later read answers `x` and loads the stamp `now`, unless `x` is
      null, which reads back as the empty result without a stamp. */
  function Stored<T>(b: Backend<T>, x: Option<T>, now: int): Backend<T>
  {
    match b
    case InMemory => InMemory
    case External(_, _, readFails, writeFails) =>
      if x.Some? then External(Result(true, x), Some(now), readFails, writeFails)
      else External(Empty(), None, readFails, writeFails)
  }

  /** The tier after writing `x` at time `now`: a write that throws changes
      nothing; any other stores `x`, stamps `now` and, for an external
      tier, replaces what its store holds. */
  function AfterWrite<T>(v: Tier<T>, x: Option<T>, now: int): Tier<T>
  {
    if WriteFails(v) then v
    else v.(storageValue := x, lastUpdated := Some(now), backend := Stored(v.backend, x, now))
  }

  /** IsExpired of tier `v` at time `now`. */
  predicate Expired<T>(v: Tier<T>, now: int)
  {
    match v.expiry
    case NeverExpires => false
    case Window(interval) => Freshness.IsExpired(v.lastUpdated, interval, now)
  }

  /** Reading an empty memory tier yields the empty result. */
  lemma MemoryReadOfNullIsEmpty<T>(v: Tier<T>)
    requires v.backend.InMemory? && v.storageValue.None?
    ensures ReadResult(v) == Empty()
  {
  }

  /** Reading a non-empty memory tier yields its value, whether or not the
      tier is expired: expiry is judged by the chain, not by the read. */
  lemma MemoryReadIgnoresExpiry<T>(v: Tier<T>, now: int)
    requires v.backend.InMemory? && v.storageValue.Some?
    ensures ReadResult(v) == Result(true, v.storageValue)
    ensures Expired(v, now) ==> ReadResult(v).hasValue
  {
  }

  /** Reading a memory tier changes neither its value nor its stamp. */
  lemma MemoryReadChangesNothing<T>(v: Tier<T>)
    requires v.backend.InMemory?
    ensures AfterRead(v) == v
  {
  }

  /** A memory write stores the value and stamps the time of writing. */
  lemma MemoryWriteStoresAndStamps<T>(v: Tier<T>, x: Option<T>, now: int)
    requires v.backend.InMemory?
    ensures AfterWrite(v, x, now).storageValue == x
    ensures AfterWrite(v, x, now).lastUpdated == Some(now)
  {
  }

  /** Writing a non-null value to a tier whose write and read do not throw
      and reading it back returns that value, for the memory tier and for
      an external store alike; the read leaves the write's stamp. */
  lemma WriteThenRead<T>(v: Tier<T>, x: T, now: int)
    requires !WriteFails(v) && !ReadFails(v)
    ensures ReadResult(AfterWrite(v, Some(x), now)) == Result(true, Some(x))
    ensures AfterRead(AfterWrite(v, Some(x), now)).lastUpdated == Some(now)
  {
  }

  /** After a write that did not throw, a windowed tier is fresh from the
      moment of writing until the whole interval has elapsed, and so is it
      once read again. */
  lemma FreshAfterWrite<T>(v: Tier<T>, x: Option<T>, now: int, later: int)
    requires !WriteFails(v) && v.expiry.Window? && now <= later <= now + v.expiry.interval
    ensures !Expired(AfterWrite(v, x, now), later)
    ensures !Expired(AfterRead(AfterWrite(v, x, now)), later)
  {
  }

  /** Reads and writes never change a tier's level, flags or expiry, nor
      the kind of its store and whether its reads and writes throw; a read
      leaves the store as it is. */
  lemma StepsKeepContract<T>(v: Tier<T>, x: Option<T>, now: int)
    ensures var r := AfterRead(v);
      r.level == v.level && r.readable == v.readable && r.writable == v.writable &&
      r.expiry == v.expiry && r.backend == v.backend
    ensures var w := AfterWrite(v, x, now);
      w.level == v.level && w.readable == v.readable && w.writable == v.writable &&
      w.expiry == v.expiry && w.backend.InMemory? == v.backend.InMemory? &&
      ReadFails(w) == ReadFails(v) && WriteFails(w) == WriteFails(v)
  {
  }

  /** One storage tier. Level, flags and expiration interval are fixed when
      the tier is built; reads and writes update `lastUpdated` and
      `storageValue` in place. */
  class Storage<T> {
    const level: int
    const readable: bool
    const writable: bool
    const expiry: Expiry
    var backend: Backend<T>
    var lastUpdated: Option<int>
    var storageValue: Option<T>

    /** The tier's current value. */
    function View(): Tier<T>
      reads this
    {
      Tier(level, readable, writable, expiry, backend, lastUpdated, storageValue)
    }

    /** StorageBase's constructor: the interval, flags and level as given,
        never stamped and holding nothing. */
    constructor (expirationInterval: int, canRead: bool, canWrite: bool, level: int, backend: Backend<T>)
      ensures View() == Tier(level, canRead, canWrite, Window(expirationInterval), backend, None, None)
    {
      this.level := level;
      readable := canRead;
      writable := canWrite;
      expiry := Window(expirationInterval);
      this.backend := backend;
      lastUpdated := None;
      storageValue := None;
    }

    /** MemoryStorage's constructor: readable, writable, at the memory level. */
    constructor Memory(memoryExpiration: int)
      ensures View() == Tier(MemoryLevel, true, true, Window(memoryExpiration), InMemory, None, None)
    {
      level := MemoryLevel;
      readable, writable := true, true;
      expiry := Window(memoryExpiration);
      backend := InMemory;
      lastUpdated, storageValue := None, None;
    }

    /** The file tier: readable, writable, at the file level; what its
        read answers, the stamp it loads and whether its read or write
        throws stand for the file on disk. */
    constructor File(fileExpiration: int, answer: Result<T>, stamp: Option<int>, readFails: bool, writeFails: bool)
      ensures View() == Tier(FileLevel, true, true, Window(fileExpiration), External(answer, stamp, readFails, writeFails), None, None)
    {
      level := FileLevel;
      readable, writable := true, true;
      expiry := Window(fileExpiration);
      backend := External(answer, stamp, readFails, writeFails);
      lastUpdated, storageValue := None, None;
    }

    /** The web tier: readable, never writable, never expired; what its
        read answers and whether the read throws are given, and a write to
        it throws. */
    constructor Web(answer: Result<T>, readFails: bool)
      ensures View() == Tier(WebLevel, true, false, NeverExpires, External(answer, None, readFails, true), None, None)
    {
      level := WebLevel;
      readable, writable := true, false;
      expiry := NeverExpires;
      backend := External(answer, None, readFails, true);
      lastUpdated, storageValue := None, None;
    }

    /** The IsExpired property, at time `now`. */
    predicate IsExpired(now: int)
      reads this
    {
      Expired(View(), now)
    }

    /** ReadAsync; `ok` is false when the read throws, and then there is
        no result (`r` is the empty one) and nothing changes. */
    method Read() returns (r: Result<T>, ok: bool)
      modifies this
      ensures ok == !ReadFails(old(View()))
      ensures r == if ok then ReadResult(old(View())) else Empty()
      ensures View() == AfterRead(old(View()))
    {
      match backend
      case InMemory =>
        if storageValue.None? {
          r := Empty();
        } else {
          r := Result(true, storageValue);
        }
        ok := true;
      case External(answer, stamp, readFails, _) =>
        if readFails {
          return Empty(), false;
        }
        if stamp.Some? {
          lastUpdated := stamp;
        }
        r, ok := answer, true;
    }

    /** WriteAsync; `ok` is false when the write throws. An external store
        that takes the write answers later reads with it. */
    method Write(x: Option<T>, now: int) returns (ok: bool)
      modifies this
      ensures ok == !WriteFails(old(View()))
      ensures View() == AfterWrite(old(View()), x, now)
    {
      if backend.External? && backend.writeFails {
        return false;
      }
      storageValue := x;
      lastUpdated := Some(now);
      if backend.External? {
        if x.Some? {
          backend := External(Result(true, x), Some(now), backend.readFails, false);
        } else {
          backend := External(Empty(), None, backend.readFails, false);
        }
      }
      ok := true;
    }
  }

  /** The current values of a sequence of tiers. */
  function Views<T>(ts: seq<Storage<T>>): (vs: seq<Tier<T>>)
    reads ts
    ensures |vs| == |ts| && forall m :: 0 <= m < |ts| ==> vs[m] == ts[m].View()
  {
    if ts == [] then [] else [ts[0].View()] + Views(ts[1..])
  }
}
