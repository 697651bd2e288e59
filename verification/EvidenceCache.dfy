/** The evidence cache: items by id, evicted in insertion order under an item limit and a byte
    budget, and expired by a fixed time to live. The serialized size is a parameter. */
module EvidenceCache {
  import opened Evidence
  import opened Fifo
  import opened Options

  const MAX_CACHE_ITEMS := 1000
  const DEFAULT_CACHE_MAX_BYTES := 8388608
  const MAX_CACHE_BYTES := 67108864
  const DEFAULT_TTL := 300000000000

  datatype Config = Config(ttl: int, max: int, maxBytes: int)

  type Stored = Entry<Item>

  /** The cache as its entries in insertion order and its counters. */
  datatype State = State(q: seq<Stored>, evictions: nat, expired: nat, oversized: nat)

  datatype Stats = Stats(items: nat, bytes: int, evictions: nat, expired: nat, oversized: nat)

  // ---------------------------------------------------------------- what the operations mean

  predicate Fits(q: seq<Stored>, cfg: Config) {
    |q| <= cfg.max && Bytes(q) <= cfg.maxBytes
  }

  /** Drops the oldest entries until both limits hold. */
  function Evict(q: seq<Stored>, cfg: Config): (r: seq<Stored>)
    ensures |r| <= |q|
  {
    if |q| == 0 || Fits(q, cfg) then q else Evict(q[1..], cfg)
  }

  function Expire(s: State, now: int): State {
    var q := Alive(s.q, now);
    s.(q := q, expired := s.expired + (|s.q| - |q|))
  }

  /** Whether Put does anything at all. */
  predicate Accepts(cfg: Config, item: Item) {
    cfg.max > 0 && item.id != ""
  }

  function EntryFor(cfg: Config, item: Item, size: nat, now: int): Stored {
    Entry(item.id, item, size, now + cfg.ttl)
  }

  /** Expiry at time t1, then replacement with a deadline counted from t2, then eviction. */
  function PutState(cfg: Config, s: State, item: Item, size: nat, t1: int, t2: int): State {
    if !Accepts(cfg, item) then s
    else
      var alive := Expire(s, t1);
      var rest := Without(alive.q, {item.id});
      if size > cfg.maxBytes then alive.(q := rest, oversized := alive.oversized + 1)
      else
        var grown := rest + [EntryFor(cfg, item, size, t2)];
        var q := Evict(grown, cfg);
        alive.(q := q, evictions := alive.evictions + (|grown| - |q|))
  }

  /** What a lookup returns once the expired entries are gone. */
  function Served(q: seq<Stored>, id: string): Option<Item> {
    match Find(q, id)
    case None => None
    case Some(e) => Some(e.value.(freshness := Freshness.Cached))
  }

  // ---------------------------------------------------------------- the cache

  class Cache {
    const cfg: Config
    const sizeOf: Item -> nat
    var items: map<string, Stored>
    var order: seq<string>
    var bytes: int
    var evictions: nat
    var expired: nat
    var oversized: nat

    /** The map, the key slice and the byte counter agree. */
    ghost predicate Consistent()
      reads this
    {
      Linked(items, order) && bytes == Bytes(Listing(items, order))
    }

    ghost predicate Valid()
      reads this
    {
      Consistent() && (order == [] || Fits(Listing(items, order), cfg))
    }

    ghost function Abs(): State
      reads this
      requires Linked(items, order)
    {
      State(Listing(items, order), evictions, expired, oversized)
    }

    constructor (ttl: int, max: int, maxBytes: int, size: Item -> nat)
      ensures Valid() && Abs() == State([], 0, 0, 0) && sizeOf == size
      ensures cfg.ttl == (if ttl <= 0 then DEFAULT_TTL else ttl)
      ensures cfg.max == (if max > MAX_CACHE_ITEMS then MAX_CACHE_ITEMS else max)
      ensures cfg.maxBytes == (if maxBytes <= 0 then DEFAULT_CACHE_MAX_BYTES
                               else if maxBytes > MAX_CACHE_BYTES then MAX_CACHE_BYTES else maxBytes)
    {
      cfg := Config(
        if ttl <= 0 then DEFAULT_TTL else ttl,
        if max > MAX_CACHE_ITEMS then MAX_CACHE_ITEMS else max,
        if maxBytes <= 0 then DEFAULT_CACHE_MAX_BYTES
        else if maxBytes > MAX_CACHE_BYTES then MAX_CACHE_BYTES else maxBytes);
      sizeOf := size;
      items, order, bytes := map[], [], 0;
      evictions, expired, oversized := 0, 0, 0;
    }

    method RemoveLocked(id: string)
      requires Consistent()
      modifies this`items, this`order, this`bytes
      ensures Consistent()
      ensures Listing(items, order) == Without(old(Listing(items, order)), {id})
      ensures items == old(items) - {id}
    {
      RemoveKeyLinked(items, order, id);
      RemoveKeyBytes(items, order, id);
      if id !in items {
        assert items - {id} == items;
        return;
      }
      bytes := bytes - items[id].size;
      items := items - {id};
      order := CompactOrder(order, id);
    }

    /** One visit of the walk, which began with the entries was and q and has dropped gone. */
    method Visit(id: string, now: int, ghost was: map<string, Stored>, ghost q: seq<Stored>, ghost gone: set<string>)
        returns (ghost more: set<string>)
      requires Consistent() && id in items
      requires items == was - gone && Listing(items, order) == Without(q, gone)
      modifies this`items, this`order, this`bytes, this`expired
      ensures Consistent()
      ensures more == if was[id].expiresAt < now then {id} else {}
      ensures items == was - (gone + more) && Listing(items, order) == Without(q, gone + more)
      ensures |order| + expired == old(|order| + expired)
    {
      DropMore(was, q, gone, if was[id].expiresAt < now then {id} else {});
      if now > items[id].expiresAt {
        RemoveKeyBytes(items, order, id);
        RemoveLocked(id);
        expired := expired + 1;
        more := {id};
      } else {
        more := {};
        assert gone + more == gone;
      }
    }

    /** The walk over the map, in whatever order it goes. */
    method ExpireLocked(now: int)
      requires Consistent()
      modifies this`items, this`order, this`bytes, this`expired
      ensures Consistent()
      ensures Abs() == Expire(old(Abs()), now)
    {
      ghost var was, q := items, Listing(items, order);
      ghost var gone: set<string> := {};
      var pending := items.Keys;
      WithoutNone(q, gone);
      while pending != {}
        invariant Consistent()
        invariant pending <= was.Keys && gone !! pending
        invariant items == was - gone && Listing(items, order) == Without(q, gone)
        invariant forall id :: id in was && id !in pending ==> (id in gone <==> was[id].expiresAt < now)
        invariant |order| + expired == old(|order| + expired)
        decreases pending
      {
        var id :| id in pending;
        pending := pending - {id};
        ghost var more := Visit(id, now, was, q, gone);
        gone := gone + more;
      }
      ExpiryWalk(was, old(order), gone, now);
    }

    /** The eviction loop. */
    method EvictLocked()
      requires Consistent()
      modifies this`items, this`order, this`bytes, this`evictions
      ensures Consistent()
      ensures Listing(items, order) == Evict(old(Listing(items, order)), cfg)
      ensures evictions == old(evictions) + (old(|order|) - |order|)
    {
      ListingKeys(items, order);
      while (|items| > cfg.max || bytes > cfg.maxBytes) && |order| > 0
        invariant Consistent() && |items| == |order|
        invariant Evict(Listing(items, order), cfg) == Evict(old(Listing(items, order)), cfg)
        invariant evictions + |order| == old(evictions + |order|)
        decreases |order|
      {
        ListingKeys(items, order);
        WithoutHead(Listing(items, order));
        RemoveLocked(order[0]);
        ListingKeys(items, order);
        evictions := evictions + 1;
      }
    }

    /** The insertion behind everything else, before the limits are enforced. */
    method InsertLast(item: Item, size: nat, now: int)
      requires Consistent() && item.id !in items
      modifies this`items, this`order, this`bytes
      ensures Consistent()
      ensures Listing(items, order) == old(Listing(items, order)) + [EntryFor(cfg, item, size, now)]
    {
      ghost var e := EntryFor(cfg, item, size, now);
      ListingAppend(items, order, e);
      BytesConcat(Listing(items, order), [e]);
      items := items[item.id := Entry(item.id, item, size, now + cfg.ttl)];
      order := order + [item.id];
      bytes := bytes + size;
    }

    /** The part of Put that stores an item which fits the budget. */
    method StoreLocked(item: Item, size: nat, now: int)
      requires Consistent() && item.id !in items
      modifies this`items, this`order, this`bytes, this`evictions
      ensures Valid()
      ensures var grown := old(Listing(items, order)) + [EntryFor(cfg, item, size, now)];
              Listing(items, order) == Evict(grown, cfg) && evictions == old(evictions) + (|grown| - |order|)
    {
      InsertLast(item, size, now);
      EvictFits(Listing(items, order), cfg);
      EvictLocked();
    }

    /** Expiry and removal of the old entry, which both leave the rest within the limits. */
    method MakePlace(id: string, now: int)
      requires Valid()
      modifies this`items, this`order, this`bytes, this`expired
      ensures Valid() && id !in items
      ensures Listing(items, order) == Without(Alive(old(Abs()).q, now), {id})
      ensures expired == Expire(old(Abs()), now).expired
    {
      AliveBytes(Listing(items, order), now);
      ExpireLocked(now);
      WithoutBytes(Listing(items, order), {id});
      RemoveLocked(id);
    }

    method Put(item: Item, t1: int, t2: int)
      requires Valid()
      modifies this`items, this`order, this`bytes, this`evictions, this`expired, this`oversized
      ensures Valid()
      ensures Abs() == PutState(cfg, old(Abs()), item, sizeOf(item), t1, t2)
      ensures order == [] || (|order| <= cfg.max && bytes <= cfg.maxBytes)
    {
      if cfg.max <= 0 || item.id == "" {
        return;
      }
      var size := sizeOf(item);
      MakePlace(item.id, t1);
      if size > cfg.maxBytes {
        oversized := oversized + 1;
        return;
      }
      StoreLocked(item, size, t2);
    }

    method Get(id: string, now: int) returns (r: Option<Item>)
      requires Valid()
      modifies this`items, this`order, this`bytes, this`expired
      ensures Valid()
      ensures Abs() == if id == "" then old(Abs()) else Expire(old(Abs()), now)
      ensures r == if id == "" then None else Served(Alive(old(Abs()).q, now), id)
    {
      if id == "" {
        return None;
      }
      AliveBytes(Listing(items, order), now);
      ExpireLocked(now);
      FindInMap(id);
      if id !in items {
        return None;
      }
      return Some(items[id].value.(freshness := Freshness.Cached));
    }

    lemma FindInMap(id: string)
      requires Consistent()
      ensures Find(Listing(items, order), id) == if id in items then Some(items[id]) else None
    {
      var q := Listing(items, order);
      ListingKeys(items, order);
      FindNothing(q, id);
      if id in items {
        ListingMember(items, order, items[id]);
        FindMember(q, items[id]);
      } else if Find(q, id) != None {
        ListingMember(items, order, Find(q, id).value);
      }
    }

    method ReadStats(now: int) returns (r: Stats)
      requires Valid()
      modifies this`items, this`order, this`bytes, this`expired
      ensures Valid()
      ensures Abs() == Expire(old(Abs()), now)
      ensures r == Stats(|Abs().q|, Bytes(Abs().q), evictions, expired, oversized)
    {
      AliveBytes(Listing(items, order), now);
      ExpireLocked(now);
      ListingKeys(items, order);
      r := Stats(|items|, bytes, evictions, expired, oversized);
    }
  }

  // ---------------------------------------------------------------- eviction

  lemma {:induction false} EvictFits(q: seq<Stored>, cfg: Config)
    ensures |Evict(q, cfg)| == 0 || Fits(Evict(q, cfg), cfg)
  {
    if |q| > 0 && !Fits(q, cfg) {
      EvictFits(q[1..], cfg);
    }
  }

  /** Eviction keeps the longest suffix that fits. */
  lemma {:induction false} EvictKeepsLongestSuffix(q: seq<Stored>, cfg: Config)
    ensures IsSuffix(Evict(q, cfg), q)
    ensures |Evict(q, cfg)| == 0 || (|Evict(q, cfg)| <= cfg.max && Bytes(Evict(q, cfg)) <= cfg.maxBytes)
    ensures forall n :: 0 <= n <= |q| && |q| - n <= cfg.max && Bytes(q[n..]) <= cfg.maxBytes ==>
              |q| - n <= |Evict(q, cfg)|
  {
    if |q| > 0 && !Fits(q, cfg) {
      EvictKeepsLongestSuffix(q[1..], cfg);
      forall n | 0 <= n <= |q| && |q| - n <= cfg.max && Bytes(q[n..]) <= cfg.maxBytes
        ensures |q| - n <= |Evict(q, cfg)|
      {
        assert q[0..] == q;
        assert n > 0 && q[n..] == q[1..][n - 1..];
      }
    }
  }

  /** A put of an item with an id that fits the byte budget stores it, in the last place, under its
      id, with its size, and until the time to live has passed. */
  lemma OwnPutSurvives(cfg: Config, s: State, item: Item, size: nat, t1: int, t2: int)
    requires cfg.max > 0 && item.id != "" && size <= cfg.maxBytes
    ensures var q := PutState(cfg, s, item, size, t1, t2).q;
            |q| > 0 && q[|q| - 1] == Entry(item.id, item, size, t2 + cfg.ttl)
  {
    var e := EntryFor(cfg, item, size, t2);
    var grown := Without(Expire(s, t1).q, {item.id}) + [e];
    EvictKeepsLongestSuffix(grown, cfg);
    assert grown[|grown| - 1..] == [e];
    BytesOne(e);
  }

  /** The entries before the one just stored are of other ids, and were there before. */
  lemma PutKeepsOthers(cfg: Config, s: State, item: Item, size: nat, t1: int, t2: int)
    requires cfg.max > 0 && item.id != "" && size <= cfg.maxBytes
    ensures var q := PutState(cfg, s, item, size, t1, t2).q;
            && |q| > 0
            && forall i :: 0 <= i < |q| - 1 ==> q[i] in s.q && q[i].expiresAt >= t1 && q[i].key != item.id
  {
    OwnPutSurvives(cfg, s, item, size, t1, t2);
    var alive := Alive(s.q, t1);
    var rest := Without(alive, {item.id});
    var grown, q := rest + [EntryFor(cfg, item, size, t2)], PutState(cfg, s, item, size, t1, t2).q;
    EvictKeepsLongestSuffix(grown, cfg);
    forall i | 0 <= i < |q| - 1
      ensures q[i] in s.q && q[i].expiresAt >= t1 && q[i].key != item.id
    {
      assert q[i] == grown[|grown| - |q| + i] == rest[|grown| - |q| + i];
      WithoutMember(alive, {item.id}, q[i]);
      AliveMember(s.q, t1, q[i]);
    }
  }

  /** A lookup right after a put serves the item, marked as cached, until its deadline. */
  lemma PutIsServed(cfg: Config, s: State, item: Item, size: nat, t1: int, t2: int, now: int)
    requires cfg.max > 0 && item.id != "" && size <= cfg.maxBytes && now <= t2 + cfg.ttl
    ensures Served(Alive(PutState(cfg, s, item, size, t1, t2).q, now), item.id)
         == Some(item.(freshness := Freshness.Cached))
  {
    var q, e := PutState(cfg, s, item, size, t1, t2).q, Entry(item.id, item, size, t2 + cfg.ttl);
    OwnPutSurvives(cfg, s, item, size, t1, t2);
    PutKeepsOthers(cfg, s, item, size, t1, t2);
    AliveKeepsLast(q, now, item.id);
    FindLast(Alive(q, now), e);
  }

  lemma {:induction false} AliveKeepsLast(q: seq<Stored>, t: int, key: string)
    requires |q| > 0 && q[|q| - 1].expiresAt >= t && forall i :: 0 <= i < |q| - 1 ==> q[i].key != key
    ensures var alive := Alive(q, t);
            && |alive| > 0 && alive[|alive| - 1] == q[|q| - 1]
            && forall i :: 0 <= i < |alive| - 1 ==> alive[i].key != key
  {
    if |q| > 1 {
      AliveKeepsLast(q[1..], t, key);
    }
  }

  /** Every other put stores nothing. One without an id, or into a cache without room for any item,
      changes nothing at all; an oversized one removes what has expired and what its id had. */
  lemma OtherPuts(cfg: Config, s: State, item: Item, size: nat, t1: int, t2: int)
    requires cfg.max <= 0 || item.id == "" || size > cfg.maxBytes
    ensures var t := PutState(cfg, s, item, size, t1, t2);
            if cfg.max <= 0 || item.id == "" then t == s
            else
              && (forall e :: e in t.q <==> e in s.q && e.expiresAt >= t1 && e.key != item.id)
              && t.oversized == s.oversized + 1 && t.evictions == s.evictions
  {
    if cfg.max > 0 && item.id != "" {
      forall e
        ensures e in PutState(cfg, s, item, size, t1, t2).q <==> e in s.q && e.expiresAt >= t1 && e.key != item.id
      {
        WithoutMember(Alive(s.q, t1), {item.id}, e);
        AliveMember(s.q, t1, e);
      }
    }
  }

  /** The number of entries that expire before t. */
  function Dead(q: seq<Stored>, t: int): nat {
    if |q| == 0 then 0 else (if q[0].expiresAt < t then 1 else 0) + Dead(q[1..], t)
  }

  lemma {:induction false} AliveCount(q: seq<Stored>, t: int)
    ensures |Alive(q, t)| + Dead(q, t) == |q|
  {
    if |q| > 0 {
      AliveCount(q[1..], t);
    }
  }

  /** What each counter counts. */
  lemma PutCounters(cfg: Config, s: State, item: Item, size: nat, t1: int, t2: int)
    requires cfg.max > 0 && item.id != ""
    ensures var t, rest := PutState(cfg, s, item, size, t1, t2), Without(Alive(s.q, t1), {item.id});
            && t.expired == s.expired + Dead(s.q, t1)
            && t.oversized == s.oversized + (if size > cfg.maxBytes then 1 else 0)
            && t.evictions == s.evictions + (if size > cfg.maxBytes then 0 else |rest| + 1 - |t.q|)
  {
    AliveCount(s.q, t1);
  }

  // ---------------------------------------------------------------- runs

  /** A call of Put with its two clock readings, or of Get or Stats with its one. */
  datatype Op = PutOp(item: Item, size: nat, t1: int, t2: int) | ReadOp(now: int)

  function First(op: Op): int {
    match op case PutOp(_, _, t1, _) => t1 case ReadOp(now) => now
  }

  function Last(op: Op): int {
    match op case PutOp(_, _, _, t2) => t2 case ReadOp(now) => now
  }

  /** The clock never goes back. */
  ghost predicate Monotone(ops: seq<Op>) {
    && (forall i :: 0 <= i < |ops| ==> First(ops[i]) <= Last(ops[i]))
    && (forall i, j :: 0 <= i < j < |ops| ==> Last(ops[i]) <= First(ops[j]))
  }

  function Step(cfg: Config, s: State, op: Op): State {
    match op
    case PutOp(item, size, t1, t2) => PutState(cfg, s, item, size, t1, t2)
    case ReadOp(now) => Expire(s, now)
  }

  function Run(cfg: Config, ops: seq<Op>): State {
    if |ops| == 0 then State([], 0, 0, 0) else Step(cfg, Run(cfg, ops[..|ops| - 1]), ops[|ops| - 1])
  }

  /** The operation is a put of this id that the cache acts on. */
  predicate Puts(cfg: Config, op: Op, id: string) {
    op.PutOp? && cfg.max > 0 && id != "" && op.item.id == id
  }

  /** What an operation does to the history. */
  function Recorded(cfg: Config, h: seq<Stored>, op: Op): seq<Stored> {
    match op
    case PutOp(item, size, t1, t2) =>
      if !Accepts(cfg, item) then h
      else Without(h, {item.id}) + if size > cfg.maxBytes then [] else [EntryFor(cfg, item, size, t2)]
    case ReadOp(_) => h
  }

  /** Each id's last put, in the order of those puts, unless that put was oversized. */
  function History(cfg: Config, ops: seq<Op>): seq<Stored> {
    if |ops| == 0 then [] else Recorded(cfg, History(cfg, ops[..|ops| - 1]), ops[|ops| - 1])
  }

  /** The last put of an id, found by walking the operations back from the end. */
  function LastPut(cfg: Config, ops: seq<Op>, id: string): Option<Stored> {
    if |ops| == 0 then None
    else
      var op := ops[|ops| - 1];
      if op.PutOp? && cfg.max > 0 && id != "" && op.item.id == id then
        if op.size > cfg.maxBytes then None else Some(Entry(id, op.item, op.size, op.t2 + cfg.ttl))
      else LastPut(cfg, ops[..|ops| - 1], id)
  }

  /** No two entries share a key, deadlines never decrease, and none is later than the bound. */
  ghost predicate Shape(h: seq<Stored>, bound: int) {
    UniqueKeys(h) && ExpiryOrdered(h) && forall i :: 0 <= i < |h| ==> h[i].expiresAt <= bound
  }

  lemma RecordedShape(cfg: Config, h: seq<Stored>, op: Op, bound: int)
    requires Shape(h, bound) && bound <= Last(op) + cfg.ttl
    ensures Shape(Recorded(cfg, h, op), Last(op) + cfg.ttl)
  {
    if op.PutOp? {
      WithoutShape(h, op.item.id, Last(op) + cfg.ttl);
    }
  }

  lemma {:induction false} HistoryShape(cfg: Config, ops: seq<Op>)
    requires Monotone(ops)
    ensures UniqueKeys(History(cfg, ops)) && ExpiryOrdered(History(cfg, ops))
    ensures if |ops| == 0 then History(cfg, ops) == []
            else Shape(History(cfg, ops), Last(ops[|ops| - 1]) + cfg.ttl)
  {
    if |ops| > 0 {
      var n := |ops| - 1;
      HistoryShape(cfg, ops[..n]);
      var bound := if n == 0 then First(ops[n]) + cfg.ttl else Last(ops[n - 1]) + cfg.ttl;
      RecordedShape(cfg, History(cfg, ops[..n]), ops[n], bound);
    }
  }

  /** The history holds exactly each id's last put. */
  lemma {:induction false} HistoryIsLastPuts(cfg: Config, ops: seq<Op>, id: string)
    requires Monotone(ops)
    ensures Find(History(cfg, ops), id) == LastPut(cfg, ops, id)
  {
    if |ops| > 0 {
      var n := |ops| - 1;
      HistoryIsLastPuts(cfg, ops[..n], id);
      HistoryShape(cfg, ops[..n]);
      var op := ops[n];
      if op.PutOp? && Accepts(cfg, op.item) {
        FindSuperseded(History(cfg, ops[..n]), op.item.id,
                       if op.size > cfg.maxBytes then [] else [EntryFor(cfg, op.item, op.size, op.t2)], id);
      }
    }
  }

  lemma {:induction false} FindSuperseded(h: seq<Stored>, key: string, tail: seq<Stored>, id: string)
    requires |tail| <= 1 && forall i :: 0 <= i < |tail| ==> tail[i].key == key
    ensures Find(Without(h, {key}) + tail, id)
         == if id != key then Find(h, id) else if |tail| == 0 then None else Some(tail[0])
  {
    if |h| == 0 {
      assert Without(h, {key}) + tail == tail;
    } else {
      FindSuperseded(h[1..], key, tail, id);
      if h[0].key != key {
        assert (Without(h, {key}) + tail)[1..] == Without(h[1..], {key}) + tail;
      }
    }
  }

  lemma SuffixShape(q: seq<Stored>, h: seq<Stored>)
    requires IsSuffix(q, h) && UniqueKeys(h) && ExpiryOrdered(h)
    ensures UniqueKeys(q) && ExpiryOrdered(q)
  {
  }

  /** What holds of the entries after a run, next to its history. */
  ghost predicate Retained(q: seq<Stored>, h: seq<Stored>, cfg: Config) {
    IsSuffix(q, h) && (|q| == 0 || Fits(q, cfg))
  }

  lemma ExpireKeepsRetained(q: seq<Stored>, h: seq<Stored>, cfg: Config, now: int)
    requires Retained(q, h, cfg) && UniqueKeys(h) && ExpiryOrdered(h)
    ensures IsSuffix(Alive(q, now), q) && Retained(Alive(q, now), h, cfg)
  {
    SuffixShape(q, h);
    AliveIsSuffix(q, now);
    AliveBytes(q, now);
    SuffixTrans(Alive(q, now), q, h);
  }

  /** An insertion, or the removal that an oversized put ends with. */
  lemma PutKeepsRetained(
      cfg: Config, q: seq<Stored>, alive: seq<Stored>, h: seq<Stored>, key: string, tail: seq<Stored>)
    requires IsSuffix(alive, q) && IsSuffix(alive, h) && (|q| == 0 || Fits(q, cfg))
    requires Bytes(alive) <= Bytes(q)
    ensures var grown := Without(alive, {key}) + tail;
            && IsSuffix(grown, Without(h, {key}) + tail)
            && Retained(Evict(grown, cfg), Without(h, {key}) + tail, cfg)
    ensures tail == [] ==> Retained(Without(alive, {key}), Without(h, {key}), cfg)
  {
    var rest, left := Without(alive, {key}), Without(h, {key});
    WithoutSuffix(alive, h, {key});
    SuffixAppend(rest, left, tail);
    EvictKeepsLongestSuffix(rest + tail, cfg);
    EvictFits(rest + tail, cfg);
    SuffixTrans(Evict(rest + tail, cfg), rest + tail, left + tail);
    WithoutBytes(alive, {key});
  }

  lemma PutStepKeepsRetained(cfg: Config, s: State, h: seq<Stored>, item: Item, size: nat, t1: int, t2: int)
    requires Retained(s.q, h, cfg) && UniqueKeys(h) && ExpiryOrdered(h) && Accepts(cfg, item)
    ensures Retained(PutState(cfg, s, item, size, t1, t2).q, Recorded(cfg, h, PutOp(item, size, t1, t2)), cfg)
  {
    ExpireKeepsRetained(s.q, h, cfg, t1);
    AliveBytes(s.q, t1);
    if size > cfg.maxBytes {
      PutKeepsRetained(cfg, s.q, Alive(s.q, t1), h, item.id, []);
      assert Without(h, {item.id}) + [] == Without(h, {item.id});
    } else {
      PutKeepsRetained(cfg, s.q, Alive(s.q, t1), h, item.id, [EntryFor(cfg, item, size, t2)]);
    }
  }

  lemma StepKeepsRetained(cfg: Config, s: State, h: seq<Stored>, op: Op)
    requires Retained(s.q, h, cfg) && UniqueKeys(h) && ExpiryOrdered(h)
    ensures Retained(Step(cfg, s, op).q, Recorded(cfg, h, op), cfg)
  {
    match op
    case ReadOp(now) =>
      ExpireKeepsRetained(s.q, h, cfg, now);
    case PutOp(item, size, t1, t2) =>
      if Accepts(cfg, item) {
        PutStepKeepsRetained(cfg, s, h, item, size, t1, t2);
      }
  }

  /** After every run the retained entries are a suffix of the history of last puts, within both
      limits. */
  lemma {:induction false} RetainedIsSuffix(cfg: Config, ops: seq<Op>)
    requires Monotone(ops)
    ensures Retained(Run(cfg, ops).q, History(cfg, ops), cfg)
    ensures var q := Run(cfg, ops).q; q == [] || (|q| <= cfg.max && Bytes(q) <= cfg.maxBytes)
  {
    if |ops| > 0 {
      var n := |ops| - 1;
      RetainedIsSuffix(cfg, ops[..n]);
      HistoryShape(cfg, ops[..n]);
      StepKeepsRetained(cfg, Run(cfg, ops[..n]), History(cfg, ops[..n]), ops[n]);
    }
  }

  /** What expiry removes after any run is a prefix of the entries. */
  lemma {:induction false} ExpiryTakesPrefix(cfg: Config, ops: seq<Op>, now: int)
    requires Monotone(ops)
    ensures IsSuffix(Alive(Run(cfg, ops).q, now), Run(cfg, ops).q)
  {
    RetainedIsSuffix(cfg, ops);
    HistoryShape(cfg, ops);
    ExpireKeepsRetained(Run(cfg, ops).q, History(cfg, ops), cfg, now);
  }

  /** An entry of the retained part with this id is the one that the history has. */
  lemma RetainedEntry(q: seq<Stored>, h: seq<Stored>, e: Stored)
    requires IsSuffix(q, h) && UniqueKeys(h) && e in q
    ensures e in h && Find(h, e.key) == Some(e)
  {
    FindMember(h, e);
  }

  /** Get after any run returns the last put of the id, unexpired and marked as cached, or nothing. */
  lemma GetReturnsLastPut(cfg: Config, ops: seq<Op>, id: string, now: int)
    requires Monotone(ops)
    ensures match Served(Alive(Run(cfg, ops).q, now), id)
            case None => true
            case Some(item) =>
              && LastPut(cfg, ops, id).Some?
              && var e := LastPut(cfg, ops, id).value;
                 item == e.value.(freshness := Freshness.Cached) && now <= e.expiresAt
  {
    var q, alive := Run(cfg, ops).q, Alive(Run(cfg, ops).q, now);
    FindNothing(alive, id);
    if Find(alive, id) != None {
      var e := Find(alive, id).value;
      AliveMember(q, now, e);
      RetainedIsSuffix(cfg, ops);
      HistoryShape(cfg, ops);
      RetainedEntry(q, History(cfg, ops), e);
      HistoryIsLastPuts(cfg, ops, id);
    }
  }

  // ---------------------------------------------------------------- when an item is missed

  /** Since the last put of the id, the entries from that one on have exceeded a limit. */
  predicate PushedOut(cfg: Config, ops: seq<Op>, id: string) {
    && |ops| > 0 && !Puts(cfg, ops[|ops| - 1], id)
    && (|| PushedOut(cfg, ops[..|ops| - 1], id)
        || |Tail(History(cfg, ops), id)| > cfg.max
        || Bytes(Tail(History(cfg, ops), id)) > cfg.maxBytes)
  }

  lemma TailFits(q: seq<Stored>, h: seq<Stored>, e: Stored, cfg: Config)
    requires IsSuffix(q, h) && UniqueKeys(h) && e in q && Fits(q, cfg)
    ensures Fits(Tail(h, e.key), cfg)
  {
    var j := TailOfSuffix(q, h, e);
    SuffixFits(q, j, cfg);
  }

  lemma SuffixFits(q: seq<Stored>, j: nat, cfg: Config)
    requires j <= |q| && Fits(q, cfg)
    ensures Fits(q[j..], cfg)
  {
    BytesOfSuffix(q, j);
  }

  /** Eviction spares an entry if it and everything behind it fit. */
  lemma EvictSpares(grown: seq<Stored>, h: seq<Stored>, e: Stored, cfg: Config)
    requires IsSuffix(grown, h) && UniqueKeys(h) && e in grown && Fits(Tail(h, e.key), cfg)
    ensures e in Evict(grown, cfg)
  {
    var j := TailOfSuffix(grown, h, e);
    EvictKeepsLongestSuffix(grown, cfg);
    var q := Evict(grown, cfg);
    assert q[j - (|grown| - |q|)] == e;
  }

  /** What an operation does to an entry that it does not put itself. */
  lemma StepOnEntry(cfg: Config, s: State, h: seq<Stored>, op: Op, e: Stored)
    requires Retained(s.q, h, cfg) && UniqueKeys(h) && ExpiryOrdered(h) && UniqueKeys(Recorded(cfg, h, op))
    requires First(op) <= Last(op) && !Puts(cfg, op, e.key)
    ensures var q, left := Step(cfg, s, op).q, Tail(Recorded(cfg, h, op), e.key);
            if e in q then e in s.q && Fits(left, cfg)
            else e !in s.q || e.expiresAt < Last(op) || !Fits(left, cfg)
  {
    var q, h' := Step(cfg, s, op).q, Recorded(cfg, h, op);
    StepKeepsRetained(cfg, s, h, op);
    AliveMember(s.q, First(op), e);
    if e in q {
      TailFits(q, h', e, cfg);
    }
    match op
    case ReadOp(_) =>
    case PutOp(item, size, t1, t2) =>
      if Accepts(cfg, item) {
        PutOnEntry(cfg, s, h, item, size, t1, t2, e);
      }
  }

  lemma PutOnEntry(cfg: Config, s: State, h: seq<Stored>, item: Item, size: nat, t1: int, t2: int, e: Stored)
    requires Retained(s.q, h, cfg) && UniqueKeys(h) && ExpiryOrdered(h)
    requires Accepts(cfg, item) && item.id != e.key
    requires UniqueKeys(Recorded(cfg, h, PutOp(item, size, t1, t2)))
    ensures var q := PutState(cfg, s, item, size, t1, t2).q;
            && (e in q ==> e in Alive(s.q, t1))
            && (e in Alive(s.q, t1) && e !in q ==>
                  !Fits(Tail(Recorded(cfg, h, PutOp(item, size, t1, t2)), e.key), cfg))
  {
    var alive := Alive(s.q, t1);
    WithoutMember(alive, {item.id}, e);
    if size <= cfg.maxBytes {
      ExpireKeepsRetained(s.q, h, cfg, t1);
      InsertOnEntry(cfg, alive, h, EntryFor(cfg, item, size, t2), e);
    }
  }

  /** The same for an insertion behind what is alive. */
  lemma InsertOnEntry(cfg: Config, alive: seq<Stored>, h: seq<Stored>, x: Stored, e: Stored)
    requires IsSuffix(alive, h) && UniqueKeys(Without(h, {x.key}) + [x]) && x.key != e.key
    ensures var q := Evict(Without(alive, {x.key}) + [x], cfg);
            && (e in q ==> e in alive)
            && (e in alive && e !in q ==> !Fits(Tail(Without(h, {x.key}) + [x], e.key), cfg))
  {
    var grown, left := Without(alive, {x.key}) + [x], Without(h, {x.key}) + [x];
    WithoutMember(alive, {x.key}, e);
    WithoutSuffix(alive, h, {x.key});
    SuffixAppend(Without(alive, {x.key}), Without(h, {x.key}), [x]);
    EvictKeepsLongestSuffix(grown, cfg);
    if e in alive && Fits(Tail(left, e.key), cfg) {
      EvictSpares(grown, left, e, cfg);
    }
  }

  /** While e is its id's last put: it is there unless it was pushed out or has expired. */
  ghost predicate Tracked(q: seq<Stored>, e: Stored, out: bool, t: int) {
    if e in q then !out else out || e.expiresAt < t
  }

  lemma {:induction false} RunTracks(cfg: Config, ops: seq<Op>, id: string)
    requires Monotone(ops) && LastPut(cfg, ops, id).Some?
    ensures |ops| > 0 && LastPut(cfg, ops, id).value.key == id
    ensures Tracked(Run(cfg, ops).q, LastPut(cfg, ops, id).value, PushedOut(cfg, ops, id), Last(ops[|ops| - 1]))
  {
    var n := |ops| - 1;
    var front, op := ops[..n], ops[n];
    var s, h, e := Run(cfg, front), History(cfg, front), LastPut(cfg, ops, id).value;
    if Puts(cfg, op, id) {
      OwnPutSurvives(cfg, s, op.item, op.size, op.t1, op.t2);
    } else {
      RunTracks(cfg, front, id);
      RetainedIsSuffix(cfg, front);
      HistoryShape(cfg, front);
      HistoryShape(cfg, ops);
      StepOnEntry(cfg, s, h, op, e);
    }
  }

  /** Exactly when a last put is missed: it has expired, or since it was put, the entries from it
      on have exceeded a limit. Nothing else makes the cache forget. */
  lemma MissIff(cfg: Config, ops: seq<Op>, id: string, now: int)
    requires Monotone(ops) && |ops| > 0 && Last(ops[|ops| - 1]) <= now && LastPut(cfg, ops, id).Some?
    ensures Served(Alive(Run(cfg, ops).q, now), id) == None <==>
            LastPut(cfg, ops, id).value.expiresAt < now || PushedOut(cfg, ops, id)
  {
    var e, q := LastPut(cfg, ops, id).value, Run(cfg, ops).q;
    RunTracks(cfg, ops, id);
    RetainedIsSuffix(cfg, ops);
    HistoryShape(cfg, ops);
    HistoryIsLastPuts(cfg, ops, id);
    ServedIff(q, History(cfg, ops), e, now);
  }

  lemma ServedIff(q: seq<Stored>, h: seq<Stored>, e: Stored, now: int)
    requires IsSuffix(q, h) && UniqueKeys(h) && Find(h, e.key) == Some(e)
    ensures Served(Alive(q, now), e.key) == None <==> e !in q || e.expiresAt < now
  {
    var alive := Alive(q, now);
    AliveMember(q, now, e);
    FindNothing(alive, e.key);
    if Find(alive, e.key) != None {
      var f := Find(alive, e.key).value;
      AliveMember(q, now, f);
      RetainedEntry(q, h, f);
    }
  }

  /** A last put that is missed before its time is older than everything that is retained. */
  lemma MissMeansExpiredOrOldest(cfg: Config, ops: seq<Op>, id: string, now: int)
    requires Monotone(ops) && LastPut(cfg, ops, id).Some?
    ensures var e, q, h := LastPut(cfg, ops, id).value, Run(cfg, ops).q, History(cfg, ops);
            Served(Alive(q, now), id) == None ==>
              e.expiresAt < now || exists i :: 0 <= i < |h| - |q| && h[i] == e
  {
    var e, q, h := LastPut(cfg, ops, id).value, Run(cfg, ops).q, History(cfg, ops);
    RetainedIsSuffix(cfg, ops);
    HistoryShape(cfg, ops);
    HistoryIsLastPuts(cfg, ops, id);
    FindNothing(h, id);
    ServedIff(q, h, e, now);
    var i :| 0 <= i < |h| && h[i] == e;
  }

  // ---------------------------------------------------------------- accounting

  /** The puts that stored an item. */
  function Insertions(cfg: Config, ops: seq<Op>): nat {
    if |ops| == 0 then 0
    else
      var op := ops[|ops| - 1];
      Insertions(cfg, ops[..|ops| - 1]) +
      if op.PutOp? && cfg.max > 0 && op.item.id != "" && op.size <= cfg.maxBytes then 1 else 0
  }

  /** The entries that a later put of the same id removed. */
  function Replaced(cfg: Config, ops: seq<Op>): nat {
    if |ops| == 0 then 0
    else
      var op := ops[|ops| - 1];
      Replaced(cfg, ops[..|ops| - 1]) +
      if op.PutOp? && cfg.max > 0 && op.item.id != "" then
        var alive := Alive(Run(cfg, ops[..|ops| - 1]).q, op.t1);
        |alive| - |Without(alive, {op.item.id})|
      else 0
  }

  /** Every stored item is live, evicted, expired or replaced, and is counted once. */
  lemma {:induction false} Accounting(cfg: Config, ops: seq<Op>)
    ensures var s := Run(cfg, ops);
            Insertions(cfg, ops) == |s.q| + s.evictions + s.expired + Replaced(cfg, ops)
  {
    if |ops| > 0 {
      Accounting(cfg, ops[..|ops| - 1]);
    }
  }
}
