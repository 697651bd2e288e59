/** The source response cache of the HTTP client: whole GET responses by key, expired lazily on
    a lookup and eagerly on an insertion, and evicted in insertion order. */
module SourceCache {
  import opened Fifo
  import opened Options

  const MAX_CACHE_BYTES := 33554432
  const MAX_CACHE_ENTRIES := 128
  const STATUS_OK := 200

  type Bytes8 = seq<bv8>

  /** A stored response: collectedAt is the one observation time that every hit reports. */
  datatype Snapshot = Snapshot(status: int, body: Bytes8, collectedAt: int, truncated: bool)

  type Stored = Entry<Snapshot>

  // ---------------------------------------------------------------- what the operations mean

  predicate HasRoom(q: seq<Stored>, size: nat) {
    |q| < MAX_CACHE_ENTRIES && Bytes(q) + size <= MAX_CACHE_BYTES
  }

  /** Drops the oldest entries until a body of the given size has room. */
  function MakeRoom(q: seq<Stored>, size: nat): (r: seq<Stored>)
    ensures |r| <= |q|
  {
    if |q| == 0 || HasRoom(q, size) then q else MakeRoom(q[1..], size)
  }

  predicate TooBig(snap: Snapshot) {
    |snap.body| > MAX_CACHE_BYTES
  }

  function EntryFor(ttl: int, key: string, snap: Snapshot, now: int): Stored {
    Entry(key, snap, |snap.body|, now + ttl)
  }

  /** An insertion; an oversized body leaves even an older entry of its key in place. */
  function AfterPut(ttl: int, q: seq<Stored>, key: string, snap: Snapshot, t1: int, t2: int): seq<Stored> {
    if TooBig(snap) then q
    else MakeRoom(Without(Alive(q, t1 + 1), {key}), |snap.body|) + [EntryFor(ttl, key, snap, t2)]
  }

  /** A lookup removes the one entry it finds expired. */
  function AfterGet(q: seq<Stored>, key: string, now: int): seq<Stored> {
    match Find(q, key)
    case None => q
    case Some(e) => if now > e.expiresAt then Without(q, {key}) else q
  }

  function Hit(q: seq<Stored>, key: string, now: int): Option<Snapshot> {
    match Find(q, key)
    case None => None
    case Some(e) => if now > e.expiresAt then None else Some(e.value)
  }

  // ---------------------------------------------------------------- the client's cache

  /** What the network gives for one request. */
  datatype Fetched = NetworkError | ReadError | Response(status: int, body: Bytes8, truncated: bool)

  datatype Reply = Failed | BodyTooLarge(prefix: Bytes8) | Direct(snap: Snapshot) | FromCache(snap: Snapshot)

  class LockedClient {
    const cacheTTL: int
    const maxBody: nat
    var cache: map<string, Stored>
    var cacheOrder: seq<string>
    var cacheBytes: int
    var hits: nat
    var misses: nat

    ghost predicate Consistent()
      reads this
    {
      Linked(cache, cacheOrder) && cacheBytes == Bytes(Listing(cache, cacheOrder))
    }

    ghost predicate Valid()
      reads this
    {
      Consistent() && |cacheOrder| <= MAX_CACHE_ENTRIES && cacheBytes <= MAX_CACHE_BYTES
    }

    ghost function Abs(): seq<Stored>
      reads this
      requires Linked(cache, cacheOrder)
    {
      Listing(cache, cacheOrder)
    }

    constructor (ttl: int, maxBodyBytes: int)
      ensures Valid() && Abs() == [] && cacheTTL == ttl && hits == misses == 0
      ensures maxBody == (if maxBodyBytes <= 0 then 2097152 else maxBodyBytes)
    {
      cacheTTL, maxBody := ttl, if maxBodyBytes <= 0 then 2097152 else maxBodyBytes;
      cache, cacheOrder, cacheBytes, hits, misses := map[], [], 0, 0, 0;
    }

    method RemoveCacheLocked(key: string)
      requires Consistent()
      modifies this`cache, this`cacheOrder, this`cacheBytes
      ensures Consistent()
      ensures Abs() == Without(old(Abs()), {key})
      ensures cache == old(cache) - {key}
    {
      RemoveKeyLinked(cache, cacheOrder, key);
      RemoveKeyBytes(cache, cacheOrder, key);
      if key !in cache {
        assert cache - {key} == cache;
        return;
      }
      cacheBytes := cacheBytes - cache[key].size;
      cache := cache - {key};
      cacheOrder := CompactOrder(cacheOrder, key);
    }

    /** The walk over the map, in whatever order it goes; an entry goes once now reaches its
        deadline, one instant earlier than a lookup would drop it. */
    method ExpireCacheLocked(now: int)
      requires Consistent()
      modifies this`cache, this`cacheOrder, this`cacheBytes
      ensures Consistent()
      ensures Abs() == Alive(old(Abs()), now + 1)
    {
      ghost var was, q := cache, Abs();
      ghost var gone: set<string> := {};
      var pending := cache.Keys;
      WithoutNone(q, gone);
      while pending != {}
        invariant Consistent()
        invariant pending <= was.Keys && gone !! pending
        invariant cache == was - gone
        invariant Abs() == Without(q, gone)
        invariant forall key :: key in was && key !in pending ==> (key in gone <==> was[key].expiresAt < now + 1)
        decreases pending
      {
        var key :| key in pending;
        pending := pending - {key};
        ghost var more := if now < was[key].expiresAt then {} else {key};
        DropMore(was, q, gone, more);
        if now < cache[key].expiresAt {
          WithoutNone(Abs(), {});
        } else {
          RemoveCacheLocked(key);
        }
        gone := gone + more;
      }
      ExpiryWalk(was, old(cacheOrder), gone, now + 1);
    }

    /** The eviction loop. Its break on an empty order is never reached, because a body that
        gets here fits an empty cache. */
    method EvictLocked(size: nat)
      requires Consistent() && size <= MAX_CACHE_BYTES
      modifies this`cache, this`cacheOrder, this`cacheBytes
      ensures Consistent()
      ensures Abs() == MakeRoom(old(Abs()), size) && HasRoom(Abs(), size)
      ensures cache.Keys <= old(cache.Keys)
    {
      ListingKeys(cache, cacheOrder);
      while |cache| >= MAX_CACHE_ENTRIES || cacheBytes + size > MAX_CACHE_BYTES
        invariant Consistent() && |cache| == |cacheOrder|
        invariant MakeRoom(Abs(), size) == MakeRoom(old(Abs()), size)
        invariant cache.Keys <= old(cache.Keys)
        decreases |cacheOrder|
      {
        if |cacheOrder| == 0 {
          assert false;
        }
        ListingKeys(cache, cacheOrder);
        WithoutHead(Abs());
        RemoveCacheLocked(cacheOrder[0]);
        ListingKeys(cache, cacheOrder);
      }
    }

    method InsertLast(key: string, snap: Snapshot, now: int)
      requires Consistent() && key !in cache
      modifies this`cache, this`cacheOrder, this`cacheBytes
      ensures Consistent()
      ensures Abs() == old(Abs()) + [EntryFor(cacheTTL, key, snap, now)]
    {
      ghost var e := EntryFor(cacheTTL, key, snap, now);
      ListingAppend(cache, cacheOrder, e);
      BytesConcat(Abs(), [e]);
      cache := cache[key := Entry(key, snap, |snap.body|, now + cacheTTL)];
      cacheOrder := cacheOrder + [key];
      cacheBytes := cacheBytes + |snap.body|;
    }

    method CachePut(key: string, snap: Snapshot, t1: int, t2: int)
      requires Valid()
      modifies this`cache, this`cacheOrder, this`cacheBytes
      ensures Valid()
      ensures Abs() == AfterPut(cacheTTL, old(Abs()), key, snap, t1, t2)
    {
      if |snap.body| > MAX_CACHE_BYTES {
        return;
      }
      ExpireCacheLocked(t1);
      RemoveCacheLocked(key);
      EvictLocked(|snap.body|);
      ghost var e := EntryFor(cacheTTL, key, snap, t2);
      BytesConcat(Abs(), [e]);
      assert Bytes([e]) == |snap.body|;
      InsertLast(key, snap, t2);
    }

    method CacheGet(key: string, now: int) returns (r: Option<Snapshot>)
      requires Valid()
      modifies this`cache, this`cacheOrder, this`cacheBytes
      ensures Valid()
      ensures Abs() == AfterGet(old(Abs()), key, now)
      ensures r == Hit(old(Abs()), key, now)
    {
      FindInMap(key);
      if key !in cache {
        return None;
      }
      if now > cache[key].expiresAt {
        WithoutBytes(Abs(), {key});
        RemoveCacheLocked(key);
        return None;
      }
      return Some(cache[key].value);
    }

    lemma FindInMap(key: string)
      requires Consistent()
      ensures Find(Abs(), key) == if key in cache then Some(cache[key]) else None
    {
      ListingKeys(cache, cacheOrder);
      FindNothing(Abs(), key);
      if key in cache {
        ListingMember(cache, cacheOrder, cache[key]);
        FindMember(Abs(), cache[key]);
      } else if Find(Abs(), key) != None {
        ListingMember(cache, cacheOrder, Find(Abs(), key).value);
      }
    }

    /** GET with the cache in front. Only a complete response with status 200 is stored; the
        observation time is read once, after the body, and kept with the snapshot. */
    method Get(key: string, fetched: Fetched, tLookup: int, tCollected: int, t1: int, t2: int) returns (r: Reply)
      requires Valid()
      modifies this
      ensures Valid()
      ensures hits + misses == old(hits + misses) + if cacheTTL > 0 then 1 else 0
      ensures hits == old(hits) + if r.FromCache? then 1 else 0
      ensures var found := if cacheTTL > 0 then Hit(old(Abs()), key, tLookup) else None;
              var q := if cacheTTL > 0 then AfterGet(old(Abs()), key, tLookup) else old(Abs());
              if found.Some? then r == FromCache(found.value) && Abs() == q && hits == old(hits) + 1
              else
                match fetched
                case Response(status, body, truncated) =>
                  if |body| > maxBody then r == BodyTooLarge(body[..maxBody]) && Abs() == q
                  else
                    var snap := Snapshot(status, body, tCollected, truncated);
                    && r == Direct(snap)
                    && Abs() == if cacheTTL > 0 && status == STATUS_OK
                                then AfterPut(cacheTTL, q, key, snap, t1, t2) else q
                case _ => r == Failed && Abs() == q
    {
      if cacheTTL > 0 {
        var found := CacheGet(key, tLookup);
        if found.Some? {
          hits := hits + 1;
          return FromCache(found.value);
        }
        misses := misses + 1;
      }
      match fetched {
        case NetworkError => return Failed;
        case ReadError => return Failed;
        case Response(status, body, truncated) =>
          if |body| > maxBody {
            return BodyTooLarge(body[..maxBody]);
          }
          var snap := Snapshot(status, body, tCollected, truncated);
          if cacheTTL > 0 && status == STATUS_OK {
            CachePut(key, snap, t1, t2);
          }
          return Direct(snap);
      }
    }

    /** The cache size as the statistics report it. */
    method ReadStats(now: int) returns (size: nat, bytes: int)
      requires Valid()
      modifies this`cache, this`cacheOrder, this`cacheBytes
      ensures Valid()
      ensures Abs() == Alive(old(Abs()), now + 1)
      ensures size == |Abs()| && bytes == Bytes(Abs())
    {
      AliveBytes(Abs(), now + 1);
      ExpireCacheLocked(now);
      ListingKeys(cache, cacheOrder);
      size, bytes := |cache|, cacheBytes;
    }
  }

  // ---------------------------------------------------------------- eviction

  lemma {:induction false} MakeRoomKeepsLongestSuffix(q: seq<Stored>, size: nat)
    requires size <= MAX_CACHE_BYTES
    ensures IsSuffix(MakeRoom(q, size), q)
    ensures |MakeRoom(q, size)| < MAX_CACHE_ENTRIES && Bytes(MakeRoom(q, size)) + size <= MAX_CACHE_BYTES
    ensures forall n :: 0 <= n <= |q| && |q| - n < MAX_CACHE_ENTRIES && Bytes(q[n..]) + size <= MAX_CACHE_BYTES ==>
              |q| - n <= |MakeRoom(q, size)|
  {
    if |q| > 0 && !HasRoom(q, size) {
      MakeRoomKeepsLongestSuffix(q[1..], size);
      forall n | 0 <= n <= |q| && |q| - n < MAX_CACHE_ENTRIES && Bytes(q[n..]) + size <= MAX_CACHE_BYTES
        ensures |q| - n <= |MakeRoom(q, size)|
      {
        assert q[0..] == q;
        assert n > 0 && q[n..] == q[1..][n - 1..];
      }
    }
  }

  /** A body up to the byte bound is stored, in the last place, under its key and until the time to
      live has passed; what is in front of it is of other keys and was there before. */
  lemma FittingPutIsStored(ttl: int, q: seq<Stored>, key: string, snap: Snapshot, t1: int, t2: int)
    requires |snap.body| <= MAX_CACHE_BYTES
    ensures var r := AfterPut(ttl, q, key, snap, t1, t2);
            && |r| > 0 && r[|r| - 1] == Entry(key, snap, |snap.body|, t2 + ttl)
            && forall i :: 0 <= i < |r| - 1 ==> r[i] in q && r[i].expiresAt > t1 && r[i].key != key
  {
    var rest, room := RestOf(q, t1, key), MakeRoom(RestOf(q, t1, key), |snap.body|);
    var r := AfterPut(ttl, q, key, snap, t1, t2);
    MakeRoomKeepsLongestSuffix(rest, |snap.body|);
    forall i | 0 <= i < |r| - 1
      ensures r[i] in q && r[i].expiresAt > t1 && r[i].key != key
    {
      assert r[i] == room[i] == rest[|rest| - |room| + i];
      RestMember(q, t1, key, r[i]);
    }
  }

  /** The next lookup hits it until its deadline, whatever the cache held before. */
  lemma FittingPutIsHit(ttl: int, q: seq<Stored>, key: string, snap: Snapshot, t1: int, t2: int, now: int)
    requires |snap.body| <= MAX_CACHE_BYTES && now <= t2 + ttl
    ensures Hit(AfterPut(ttl, q, key, snap, t1, t2), key, now) == Some(snap)
  {
    FittingPutIsStored(ttl, q, key, snap, t1, t2);
    FindLast(AfterPut(ttl, q, key, snap, t1, t2), Entry(key, snap, |snap.body|, t2 + ttl));
  }

  /** A lookup removes the entry of its key if that has expired, and nothing else. */
  lemma LookupRemoves(q: seq<Stored>, key: string, now: int, e: Stored)
    requires UniqueKeys(q)
    ensures e in AfterGet(q, key, now) <==> e in q && !(e.key == key && e.expiresAt < now)
  {
    FindNothing(q, key);
    WithoutMember(q, {key}, e);
    if e in q && e.key == key {
      FindMember(q, e);
    }
  }

  /** A body beyond the bound changes nothing, not even an older entry of its key. */
  lemma OversizedPutIsIgnored(ttl: int, q: seq<Stored>, key: string, snap: Snapshot, t1: int, t2: int)
    requires |snap.body| > MAX_CACHE_BYTES
    ensures AfterPut(ttl, q, key, snap, t1, t2) == q
  {
  }

  // ---------------------------------------------------------------- runs

  /** One locked operation. Any number of requests interleave as a sequence of these: a miss is
      a Get, and the Put of its response comes later, with anything in between. */
  datatype Op = Put(key: string, snap: Snapshot, t1: int, t2: int) | Get(key: string, now: int) | Stats(now: int)

  function First(op: Op): int {
    if op.Put? then op.t1 else op.now
  }

  function Last(op: Op): int {
    if op.Put? then op.t2 else op.now
  }

  ghost predicate Monotone(ops: seq<Op>) {
    && (forall i :: 0 <= i < |ops| ==> First(ops[i]) <= Last(ops[i]))
    && (forall i, j :: 0 <= i < j < |ops| ==> Last(ops[i]) <= First(ops[j]))
  }

  function Step(ttl: int, q: seq<Stored>, op: Op): seq<Stored> {
    match op
    case Put(key, snap, t1, t2) => AfterPut(ttl, q, key, snap, t1, t2)
    case Get(key, now) => AfterGet(q, key, now)
    case Stats(now) => Alive(q, now + 1)
  }

  function Run(ttl: int, ops: seq<Op>): seq<Stored> {
    if |ops| == 0 then [] else Step(ttl, Run(ttl, ops[..|ops| - 1]), ops[|ops| - 1])
  }

  /** A step of a cache that only puts reach. */
  function PutStep(ttl: int, a: seq<Stored>, op: Op): seq<Stored> {
    if op.Put? then Step(ttl, a, op) else a
  }

  /** The same run with every lookup and statistics call left out. */
  function PutsOnly(ttl: int, ops: seq<Op>): seq<Stored> {
    if |ops| == 0 then [] else PutStep(ttl, PutsOnly(ttl, ops[..|ops| - 1]), ops[|ops| - 1])
  }

  /** What an operation does to the history. */
  function Recorded(ttl: int, h: seq<Stored>, op: Op): seq<Stored> {
    if op.Put? && !TooBig(op.snap) then Without(h, {op.key}) + [EntryFor(ttl, op.key, op.snap, op.t2)] else h
  }

  /** Each key's last fitting put, in the order of those puts. */
  function History(ttl: int, ops: seq<Op>): seq<Stored> {
    if |ops| == 0 then [] else Recorded(ttl, History(ttl, ops[..|ops| - 1]), ops[|ops| - 1])
  }

  /** The operation stores a response under this key. */
  predicate Fitting(op: Op, key: string) {
    op.Put? && op.key == key && |op.snap.body| <= MAX_CACHE_BYTES
  }

  /** The last fitting put of a key, found by walking back from the end. */
  function LastFittingPut(ttl: int, ops: seq<Op>, key: string): Option<Stored> {
    if |ops| == 0 then None
    else
      var op := ops[|ops| - 1];
      if op.Put? && op.key == key && |op.snap.body| <= MAX_CACHE_BYTES
      then Some(Entry(key, op.snap, |op.snap.body|, op.t2 + ttl))
      else LastFittingPut(ttl, ops[..|ops| - 1], key)
  }

  /** Both limits hold, and no key occurs twice. */
  ghost predicate WithinLimits(q: seq<Stored>) {
    |q| <= MAX_CACHE_ENTRIES && Bytes(q) <= MAX_CACHE_BYTES && UniqueKeys(q)
  }

  lemma StepWithinLimits(ttl: int, q: seq<Stored>, op: Op)
    requires WithinLimits(q)
    ensures WithinLimits(Step(ttl, q, op))
  {
    match op
    case Put(key, snap, t1, t2) =>
      if !TooBig(snap) {
        PutWithinLimits(ttl, q, key, snap, t1, t2);
      }
    case Get(key, now) =>
      WithoutUniqueKeys(q, {key});
      WithoutBytes(q, {key});
    case Stats(now) =>
      AliveUniqueKeys(q, now + 1);
      AliveBytes(q, now + 1);
  }

  /** In every reachable state the cache is within both limits and holds each key once. */
  lemma {:induction false} RunWithinLimits(ttl: int, ops: seq<Op>)
    ensures WithinLimits(Run(ttl, ops))
    ensures |Run(ttl, ops)| <= 128 && Bytes(Run(ttl, ops)) <= 32 * 1024 * 1024 && UniqueKeys(Run(ttl, ops))
  {
    if |ops| > 0 {
      RunWithinLimits(ttl, ops[..|ops| - 1]);
      StepWithinLimits(ttl, Run(ttl, ops[..|ops| - 1]), ops[|ops| - 1]);
    }
  }

  lemma PutWithinLimits(ttl: int, q: seq<Stored>, key: string, snap: Snapshot, t1: int, t2: int)
    requires UniqueKeys(q) && !TooBig(snap)
    ensures var r := AfterPut(ttl, q, key, snap, t1, t2);
            |r| <= MAX_CACHE_ENTRIES && Bytes(r) <= MAX_CACHE_BYTES && UniqueKeys(r)
  {
    var alive := Alive(q, t1 + 1);
    var rest := Without(alive, {key});
    AliveUniqueKeys(q, t1 + 1);
    WithoutUniqueKeys(alive, {key});
    forall i | 0 <= i < |rest|
      ensures rest[i].key != key
    {
      WithoutMember(alive, {key}, rest[i]);
    }
    InsertWithinLimits(rest, EntryFor(ttl, key, snap, t2));
  }

  lemma InsertWithinLimits(rest: seq<Stored>, e: Stored)
    requires UniqueKeys(rest) && e.size <= MAX_CACHE_BYTES
    requires forall i :: 0 <= i < |rest| ==> rest[i].key != e.key
    ensures var r := MakeRoom(rest, e.size) + [e];
            |r| <= MAX_CACHE_ENTRIES && Bytes(r) <= MAX_CACHE_BYTES && UniqueKeys(r)
  {
    var room := MakeRoom(rest, e.size);
    MakeRoomKeepsLongestSuffix(rest, e.size);
    BytesConcat(room, [e]);
    assert Bytes([e]) == e.size;
  }

  // ---------------------------------------------------------------- lookups change nothing

  /** q is a minus entries that nobody can see from time t on. */
  ghost predicate SameAlive(q: seq<Stored>, a: seq<Stored>, t: int) {
    Alive(q, t + 1) == Alive(a, t + 1) && forall i :: 0 <= i < |q| ==> q[i] in a
  }

  lemma SameAliveLater(q: seq<Stored>, a: seq<Stored>, t: int, later: int)
    requires SameAlive(q, a, t) && t <= later
    ensures SameAlive(q, a, later)
  {
    AliveTwice(q, t + 1, later + 1);
    AliveTwice(a, t + 1, later + 1);
  }

  lemma GetKeepsAlive(q: seq<Stored>, a: seq<Stored>, key: string, now: int)
    requires UniqueKeys(q) && SameAlive(q, a, now)
    ensures SameAlive(AfterGet(q, key, now), a, now)
  {
    FindNothing(q, key);
    if Find(q, key) != None && now > Find(q, key).value.expiresAt {
      var e := Find(q, key).value;
      forall i | 0 <= i < |q| && q[i].key == key
        ensures q[i] == e
      {
        var j :| 0 <= j < |q| && q[j] == e;
      }
      AliveWithoutDead(q, key, now + 1);
      var rest := Without(q, {key});
      forall i | 0 <= i < |rest|
        ensures rest[i] in a
      {
        WithoutMember(q, {key}, rest[i]);
        var j :| 0 <= j < |q| && q[j] == rest[i];
      }
    }
  }

  lemma StatsKeepsAlive(q: seq<Stored>, a: seq<Stored>, now: int)
    requires SameAlive(q, a, now)
    ensures SameAlive(Alive(q, now + 1), a, now)
  {
    AliveTwice(q, now + 1, now + 1);
    var rest := Alive(q, now + 1);
    forall i | 0 <= i < |rest|
      ensures rest[i] in a
    {
      AliveMember(q, now + 1, rest[i]);
      var j :| 0 <= j < |q| && q[j] == rest[i];
    }
  }

  /** A step, taken by the cache and, if it is a put, by its copy that sees puts only. */
  lemma StepKeepsAlive(ttl: int, q: seq<Stored>, a: seq<Stored>, op: Op)
    requires UniqueKeys(q) && SameAlive(q, a, First(op)) && First(op) <= Last(op)
    ensures SameAlive(Step(ttl, q, op), PutStep(ttl, a, op), Last(op))
    ensures op.Put? && !TooBig(op.snap) ==> Step(ttl, q, op) == PutStep(ttl, a, op)
  {
    match op
    case Put(key, snap, t1, t2) =>
      if TooBig(snap) {
        SameAliveLater(q, a, t1, t2);
      }
    case Get(key, now) =>
      GetKeepsAlive(q, a, key, now);
    case Stats(now) =>
      StatsKeepsAlive(q, a, now);
  }

  /** Lookups and statistics never influence what a later insertion leaves: right after any
      fitting put the cache is what the puts alone would have made it, and in between it differs
      from that only by entries that have expired. */
  lemma {:induction false} ReadsAreInvisible(ttl: int, ops: seq<Op>)
    requires Monotone(ops) && |ops| > 0
    ensures SameAlive(Run(ttl, ops), PutsOnly(ttl, ops), Last(ops[|ops| - 1]))
    ensures var op := ops[|ops| - 1];
            op.Put? && |op.snap.body| <= MAX_CACHE_BYTES ==> Run(ttl, ops) == PutsOnly(ttl, ops)
  {
    var n := |ops| - 1;
    var q, a := Run(ttl, ops[..n]), PutsOnly(ttl, ops[..n]);
    RunWithinLimits(ttl, ops[..n]);
    if n > 0 {
      ReadsAreInvisible(ttl, ops[..n]);
      SameAliveLater(q, a, Last(ops[n - 1]), First(ops[n]));
    }
    StepKeepsAlive(ttl, q, a, ops[n]);
  }

  // ---------------------------------------------------------------- history

  /** No two entries share a key, deadlines never decrease, and none is later than the bound. */
  ghost predicate Shape(h: seq<Stored>, bound: int) {
    UniqueKeys(h) && ExpiryOrdered(h) && forall i :: 0 <= i < |h| ==> h[i].expiresAt <= bound
  }

  lemma RecordedShape(ttl: int, h: seq<Stored>, op: Op, bound: int)
    requires Shape(h, bound) && bound <= Last(op) + ttl
    ensures Shape(Recorded(ttl, h, op), Last(op) + ttl)
  {
    if op.Put? {
      WithoutShape(h, op.key, Last(op) + ttl);
    }
  }

  lemma {:induction false} HistoryShape(ttl: int, ops: seq<Op>)
    requires Monotone(ops)
    ensures UniqueKeys(History(ttl, ops)) && ExpiryOrdered(History(ttl, ops))
    ensures if |ops| == 0 then History(ttl, ops) == [] else Shape(History(ttl, ops), Last(ops[|ops| - 1]) + ttl)
  {
    if |ops| > 0 {
      var n := |ops| - 1;
      HistoryShape(ttl, ops[..n]);
      var bound := if n == 0 then First(ops[n]) + ttl else Last(ops[n - 1]) + ttl;
      RecordedShape(ttl, History(ttl, ops[..n]), ops[n], bound);
    }
  }

  lemma {:induction false} HistoryIsLastPuts(ttl: int, ops: seq<Op>, key: string)
    ensures Find(History(ttl, ops), key) == LastFittingPut(ttl, ops, key)
  {
    if |ops| > 0 {
      var n := |ops| - 1;
      HistoryIsLastPuts(ttl, ops[..n], key);
      var op := ops[n];
      if op.Put? && !TooBig(op.snap) {
        FindReplaced(History(ttl, ops[..n]), EntryFor(ttl, op.key, op.snap, op.t2), key);
      }
    }
  }

  lemma {:induction false} FindReplaced(h: seq<Stored>, e: Stored, key: string)
    ensures Find(Without(h, {e.key}) + [e], key) == if key == e.key then Some(e) else Find(h, key)
  {
    if |h| == 0 {
      assert Without(h, {e.key}) + [e] == [e];
    } else {
      FindReplaced(h[1..], e, key);
      if h[0].key != e.key {
        assert (Without(h, {e.key}) + [e])[1..] == Without(h[1..], {e.key}) + [e];
      }
    }
  }

  /** Expiry, replacement and eviction leave a suffix of the history of fitting puts. */
  lemma {:induction false} PutsOnlyIsSuffix(ttl: int, ops: seq<Op>)
    requires Monotone(ops)
    ensures IsSuffix(PutsOnly(ttl, ops), History(ttl, ops))
  {
    if |ops| > 0 {
      var front, op := ops[..|ops| - 1], ops[|ops| - 1];
      MonotoneFront(ops);
      PutsOnlyIsSuffix(ttl, front);
      HistoryShape(ttl, front);
      StepKeepsSuffix(ttl, PutsOnly(ttl, front), History(ttl, front), op);
    }
  }

  lemma MonotoneFront(ops: seq<Op>)
    requires Monotone(ops) && |ops| > 0
    ensures Monotone(ops[..|ops| - 1])
  {
  }

  lemma StepKeepsSuffix(ttl: int, a: seq<Stored>, h: seq<Stored>, op: Op)
    requires IsSuffix(a, h) && ExpiryOrdered(h)
    ensures IsSuffix(PutStep(ttl, a, op), Recorded(ttl, h, op))
  {
    if op.Put? && !TooBig(op.snap) {
      PutKeepsSuffix(ttl, a, h, op);
    }
  }

  /** The last fitting put of a run, of whatever key, stands in the last place of what the puts alone
      leave; lookups, statistics and oversized puts behind it do not move it. */
  lemma {:induction false} LastFittingPutStays(ttl: int, ops: seq<Op>, put: Op, more: seq<Op>)
    requires put.Put? && |put.snap.body| <= MAX_CACHE_BYTES
    requires forall i :: 0 <= i < |more| ==> more[i].Put? ==> |more[i].snap.body| > MAX_CACHE_BYTES
    ensures var a := PutsOnly(ttl, ops + [put] + more);
            |a| > 0 && a[|a| - 1] == Entry(put.key, put.snap, |put.snap.body|, put.t2 + ttl)
  {
    var all := ops + [put] + more;
    if |more| == 0 {
      assert all[..|all| - 1] == ops && all[|all| - 1] == put;
      FittingPutIsStored(ttl, PutsOnly(ttl, ops), put.key, put.snap, put.t1, put.t2);
    } else {
      var n := |more| - 1;
      LastFittingPutStays(ttl, ops, put, more[..n]);
      assert all[..|all| - 1] == ops + [put] + more[..n] && all[|all| - 1] == more[n];
    }
  }

  lemma SuffixShape(q: seq<Stored>, h: seq<Stored>)
    requires IsSuffix(q, h) && ExpiryOrdered(h)
    ensures ExpiryOrdered(q)
  {
  }

  lemma PutKeepsSuffix(ttl: int, a: seq<Stored>, h: seq<Stored>, op: Op)
    requires op.Put? && !TooBig(op.snap) && IsSuffix(a, h) && ExpiryOrdered(h)
    ensures IsSuffix(Step(ttl, a, op), Recorded(ttl, h, op))
  {
    var alive := Alive(a, op.t1 + 1);
    SuffixShape(a, h);
    AliveIsSuffix(a, op.t1 + 1);
    SuffixTrans(alive, a, h);
    WithoutSuffix(alive, h, {op.key});
    InsertionKeepsSuffix(Without(alive, {op.key}), Without(h, {op.key}), EntryFor(ttl, op.key, op.snap, op.t2));
  }

  lemma InsertionKeepsSuffix(rest: seq<Stored>, h: seq<Stored>, e: Stored)
    requires IsSuffix(rest, h) && e.size <= MAX_CACHE_BYTES
    ensures IsSuffix(MakeRoom(rest, e.size) + [e], h + [e])
  {
    var room := MakeRoom(rest, e.size);
    MakeRoomKeepsLongestSuffix(rest, e.size);
    SuffixTrans(room, rest, h);
    SuffixAppend(room, h, [e]);
  }

  /** A hit, after any interleaving of requests, is the snapshot of the latest fitting put of its
      key, body, status, observation time and truncation flag alike, and has not expired. */
  lemma HitIsLastFittingPut(ttl: int, ops: seq<Op>, key: string, now: int)
    requires Monotone(ops) && |ops| > 0
    ensures var hit := Hit(Run(ttl, ops), key, now);
            hit.Some? ==>
              && LastFittingPut(ttl, ops, key).Some?
              && var e := LastFittingPut(ttl, ops, key).value;
                 hit.value == e.value && now <= e.expiresAt && e in PutsOnly(ttl, ops)
  {
    var q, a, h := Run(ttl, ops), PutsOnly(ttl, ops), History(ttl, ops);
    FindNothing(q, key);
    if Hit(q, key, now).Some? {
      var e := Find(q, key).value;
      ReadsAreInvisible(ttl, ops);
      PutsOnlyIsSuffix(ttl, ops);
      assert e in a && e in h;
      HistoryShape(ttl, ops);
      FindMember(h, e);
      HistoryIsLastPuts(ttl, ops, key);
    }
  }

  /** Conversely, an entry that the puts alone have not evicted is hit until its deadline, no
      matter which lookups came before. */
  lemma UnexpiredIsHit(ttl: int, ops: seq<Op>, e: Stored, now: int)
    requires Monotone(ops) && |ops| > 0 && Last(ops[|ops| - 1]) <= now
    requires e in PutsOnly(ttl, ops) && now < e.expiresAt
    ensures Hit(Run(ttl, ops), e.key, now) == Some(e.value)
  {
    ReadsAreInvisible(ttl, ops);
    RunWithinLimits(ttl, ops);
    AliveInBoth(Run(ttl, ops), PutsOnly(ttl, ops), Last(ops[|ops| - 1]), e);
    FindMember(Run(ttl, ops), e);
  }

  lemma AliveInBoth(q: seq<Stored>, a: seq<Stored>, t: int, e: Stored)
    requires SameAlive(q, a, t) && e in a && t < e.expiresAt
    ensures e in q
  {
    AliveMember(a, t + 1, e);
    AliveMember(q, t + 1, e);
  }

  /** All hits on a key between two fitting puts of it report one and the same snapshot. */
  lemma {:induction false} HitsAgree(ttl: int, ops: seq<Op>, more: seq<Op>, key: string, now: int, later: int)
    requires Monotone(ops + more) && |ops| > 0
    requires forall i :: 0 <= i < |more| ==> !Fitting(more[i], key)
    requires Hit(Run(ttl, ops), key, now).Some? && Hit(Run(ttl, ops + more), key, later).Some?
    ensures Hit(Run(ttl, ops), key, now) == Hit(Run(ttl, ops + more), key, later)
  {
    assert forall i :: 0 <= i < |ops| ==> (ops + more)[i] == ops[i];
    HitIsLastFittingPut(ttl, ops, key, now);
    HitIsLastFittingPut(ttl, ops + more, key, later);
    LastFittingPutSkips(ttl, ops, more, key);
  }

  lemma {:induction false} LastFittingPutSkips(ttl: int, ops: seq<Op>, more: seq<Op>, key: string)
    requires forall i :: 0 <= i < |more| ==> !Fitting(more[i], key)
    ensures LastFittingPut(ttl, ops + more, key) == LastFittingPut(ttl, ops, key)
  {
    if |more| == 0 {
      assert ops + more == ops;
    } else {
      var n := |more| - 1;
      assert (ops + more)[..|ops| + n] == ops + more[..n];
      LastFittingPutSkips(ttl, ops, more[..n], key);
    }
  }

  // ---------------------------------------------------------------- when a response is missed

  lemma {:induction false} PutsOnlyWithinLimits(ttl: int, ops: seq<Op>)
    ensures WithinLimits(PutsOnly(ttl, ops))
  {
    if |ops| > 0 {
      PutsOnlyWithinLimits(ttl, ops[..|ops| - 1]);
      if ops[|ops| - 1].Put? {
        StepWithinLimits(ttl, PutsOnly(ttl, ops[..|ops| - 1]), ops[|ops| - 1]);
      }
    }
  }

  /** Since the last fitting put of the key, the entries from that one on have exceeded a limit. */
  predicate PushedOut(ttl: int, ops: seq<Op>, key: string) {
    && |ops| > 0 && !Fitting(ops[|ops| - 1], key)
    && (|| PushedOut(ttl, ops[..|ops| - 1], key)
        || |Tail(History(ttl, ops), key)| > MAX_CACHE_ENTRIES
        || Bytes(Tail(History(ttl, ops), key)) > MAX_CACHE_BYTES)
  }

  predicate TailFits(h: seq<Stored>, key: string) {
    |Tail(h, key)| <= MAX_CACHE_ENTRIES && Bytes(Tail(h, key)) <= MAX_CACHE_BYTES
  }

  lemma RetainedTailFits(a: seq<Stored>, h: seq<Stored>, e: Stored)
    requires WithinLimits(a) && IsSuffix(a, h) && UniqueKeys(h) && e in a
    ensures TailFits(h, e.key)
  {
    var j := TailOfSuffix(a, h, e);
    BytesOfSuffix(a, j);
  }

  /** Where the tail of an entry begins once x stands behind everything. */
  lemma TailWithLast(rest: seq<Stored>, h: seq<Stored>, x: Stored, e: Stored) returns (j: nat)
    requires IsSuffix(rest, h) && UniqueKeys(h + [x]) && e in rest
    ensures j < |rest| && rest[j] == e && Tail(h + [x], e.key) == rest[j..] + [x]
  {
    j :| 0 <= j < |rest| && rest[j] == e;
    var i := |h| - |rest| + j;
    assert (h + [x])[i] == e;
    TailAt(h + [x], i);
    assert (h + [x])[i..] == rest[j..] + [x];
  }

  /** Making room for x spares an entry if it fits together with everything behind it and x. */
  lemma RoomSpares(rest: seq<Stored>, h: seq<Stored>, x: Stored, e: Stored)
    requires IsSuffix(rest, h) && UniqueKeys(h + [x]) && e in rest && x.size <= MAX_CACHE_BYTES
    requires TailFits(h + [x], e.key)
    ensures e in MakeRoom(rest, x.size)
  {
    var room := MakeRoom(rest, x.size);
    var j := TailWithLast(rest, h, x, e);
    BytesConcat(rest[j..], [x]);
    BytesOne(x);
    MakeRoomKeepsLongestSuffix(rest, x.size);
    assert room[j - (|rest| - |room|)] == e;
  }

  /** What a put at time t1 leaves before it makes room. */
  function RestOf(a: seq<Stored>, t1: int, key: string): seq<Stored> {
    Without(Alive(a, t1 + 1), {key})
  }

  lemma RestIsSuffix(a: seq<Stored>, h: seq<Stored>, t1: int, key: string)
    requires IsSuffix(a, h) && ExpiryOrdered(h)
    ensures IsSuffix(RestOf(a, t1, key), Without(h, {key}))
  {
    SuffixShape(a, h);
    AliveIsSuffix(a, t1 + 1);
    SuffixTrans(Alive(a, t1 + 1), a, h);
    WithoutSuffix(Alive(a, t1 + 1), h, {key});
  }

  lemma RestMember(a: seq<Stored>, t1: int, key: string, e: Stored)
    ensures e in RestOf(a, t1, key) <==> e in a && e.expiresAt > t1 && e.key != key
  {
    AliveMember(a, t1 + 1, e);
    WithoutMember(Alive(a, t1 + 1), {key}, e);
  }

  lemma RoomIsKept(ttl: int, a: seq<Stored>, op: Op, e: Stored)
    requires op.Put? && |op.snap.body| <= MAX_CACHE_BYTES
    requires e in MakeRoom(RestOf(a, op.t1, op.key), |op.snap.body|)
    ensures e in PutStep(ttl, a, op)
  {
  }

  /** What a put of another key does to an entry. */
  lemma PutOnEntry(ttl: int, a: seq<Stored>, h: seq<Stored>, op: Op, e: Stored)
    requires IsSuffix(a, h) && ExpiryOrdered(h) && op.Put? && |op.snap.body| <= MAX_CACHE_BYTES && op.key != e.key
    requires UniqueKeys(Recorded(ttl, h, op)) && e in a && e.expiresAt > op.t1
    requires TailFits(Recorded(ttl, h, op), e.key)
    ensures e in PutStep(ttl, a, op)
  {
    var rest, x := RestOf(a, op.t1, op.key), EntryFor(ttl, op.key, op.snap, op.t2);
    RestIsSuffix(a, h, op.t1, op.key);
    RestMember(a, op.t1, op.key, e);
    RoomSpares(rest, Without(h, {op.key}), x, e);
    RoomIsKept(ttl, a, op, e);
  }

  /** While e is its key's last fitting put: it is there unless it was pushed out or its time is up. */
  ghost predicate Tracked(a: seq<Stored>, e: Stored, out: bool, t: int) {
    if e in a then !out else out || e.expiresAt <= t
  }

  lemma StepTracks(ttl: int, a: seq<Stored>, h: seq<Stored>, op: Op, e: Stored, out: bool, t: int)
    requires IsSuffix(a, h) && UniqueKeys(h) && ExpiryOrdered(h) && Tracked(a, e, out, t)
    requires WithinLimits(a) && UniqueKeys(Recorded(ttl, h, op))
    requires t <= First(op) <= Last(op) && !Fitting(op, e.key)
    ensures Tracked(PutStep(ttl, a, op), e, out || !TailFits(Recorded(ttl, h, op), e.key), Last(op))
  {
    var q := PutStep(ttl, a, op);
    StepWithinLimits(ttl, a, op);
    StepKeepsSuffix(ttl, a, h, op);
    if e in q {
      RetainedTailFits(q, Recorded(ttl, h, op), e);
    }
    if op.Put? && |op.snap.body| <= MAX_CACHE_BYTES {
      FittingPutIsStored(ttl, a, op.key, op.snap, op.t1, op.t2);
      if e in a && e.expiresAt > op.t1 && TailFits(Recorded(ttl, h, op), e.key) {
        PutOnEntry(ttl, a, h, op, e);
      }
    }
  }

  lemma StoredIsTracked(ttl: int, a: seq<Stored>, op: Op)
    requires op.Put? && |op.snap.body| <= MAX_CACHE_BYTES
    ensures Entry(op.key, op.snap, |op.snap.body|, op.t2 + ttl) in PutStep(ttl, a, op)
  {
    FittingPutIsStored(ttl, a, op.key, op.snap, op.t1, op.t2);
  }

  /** What is known of a key's last fitting put after a run. */
  ghost predicate TrackedAfter(ttl: int, ops: seq<Op>, key: string) {
    && |ops| > 0 && LastFittingPut(ttl, ops, key).Some?
    && LastFittingPut(ttl, ops, key).value.key == key
    && Tracked(PutsOnly(ttl, ops), LastFittingPut(ttl, ops, key).value, PushedOut(ttl, ops, key),
               Last(ops[|ops| - 1]))
  }

  lemma FittingIsTracked(ttl: int, ops: seq<Op>, key: string)
    requires |ops| > 0 && Fitting(ops[|ops| - 1], key)
    ensures TrackedAfter(ttl, ops, key)
  {
    StoredIsTracked(ttl, PutsOnly(ttl, ops[..|ops| - 1]), ops[|ops| - 1]);
  }

  lemma OtherIsTracked(ttl: int, ops: seq<Op>, key: string)
    requires |ops| > 1 && Monotone(ops) && !Fitting(ops[|ops| - 1], key)
    requires TrackedAfter(ttl, ops[..|ops| - 1], key)
    ensures TrackedAfter(ttl, ops, key)
  {
    var n := |ops| - 1;
    var front, op := ops[..n], ops[n];
    PutsOnlyIsSuffix(ttl, front);
    PutsOnlyWithinLimits(ttl, front);
    HistoryShape(ttl, front);
    HistoryShape(ttl, ops);
    StepTracks(ttl, PutsOnly(ttl, front), History(ttl, front), op, LastFittingPut(ttl, front, key).value,
               PushedOut(ttl, front, key), Last(front[n - 1]));
  }

  lemma {:induction false} RunTracks(ttl: int, ops: seq<Op>, key: string)
    requires Monotone(ops) && LastFittingPut(ttl, ops, key).Some?
    ensures TrackedAfter(ttl, ops, key)
  {
    if Fitting(ops[|ops| - 1], key) {
      FittingIsTracked(ttl, ops, key);
    } else {
      MonotoneFront(ops);
      RunTracks(ttl, ops[..|ops| - 1], key);
      OtherIsTracked(ttl, ops, key);
    }
  }

  /** Exactly when the last fitting response of a key is missed before its deadline: when the entries
      from it on have exceeded a limit since. */
  lemma MissIff(ttl: int, ops: seq<Op>, key: string, now: int)
    requires Monotone(ops) && |ops| > 0 && Last(ops[|ops| - 1]) <= now && LastFittingPut(ttl, ops, key).Some?
    requires now < LastFittingPut(ttl, ops, key).value.expiresAt
    ensures Hit(Run(ttl, ops), key, now) == None <==> PushedOut(ttl, ops, key)
  {
    var e := LastFittingPut(ttl, ops, key).value;
    RunTracks(ttl, ops, key);
    HitIsLastFittingPut(ttl, ops, key, now);
    if e in PutsOnly(ttl, ops) {
      UnexpiredIsHit(ttl, ops, e, now);
    }
  }
}
