/** Entries in insertion order, as both caches keep them: a map by key, a slice of keys compacted
    in place, and a running byte count stand for one sequence of entries. */
module Fifo {
  import opened Options
  import opened Sorting

  datatype Entry<V> = Entry(key: string, value: V, size: nat, expiresAt: int)

  // ---------------------------------------------------------------- sequences of entries

  function Bytes<V>(q: seq<Entry<V>>): nat {
    if |q| == 0 then 0 else q[0].size + Bytes(q[1..])
  }

  /** q without the entries whose key is in gone. */
  function Without<V>(q: seq<Entry<V>>, gone: set<string>): (r: seq<Entry<V>>)
    ensures |r| <= |q|
  {
    if |q| == 0 then []
    else if q[0].key in gone then Without(q[1..], gone)
    else [q[0]] + Without(q[1..], gone)
  }

  /** The entries that expire at time t or later. */
  function Alive<V>(q: seq<Entry<V>>, t: int): (r: seq<Entry<V>>)
    ensures |r| <= |q|
  {
    if |q| == 0 then []
    else if q[0].expiresAt < t then Alive(q[1..], t)
    else [q[0]] + Alive(q[1..], t)
  }

  ghost predicate UniqueKeys<V>(q: seq<Entry<V>>) {
    forall i, j :: 0 <= i < j < |q| ==> q[i].key != q[j].key
  }

  /** Expiry times never decrease along the insertion order. */
  ghost predicate ExpiryOrdered<V>(q: seq<Entry<V>>) {
    forall i, j :: 0 <= i < j < |q| ==> q[i].expiresAt <= q[j].expiresAt
  }

  ghost predicate IsSuffix<V>(a: seq<Entry<V>>, b: seq<Entry<V>>) {
    |a| <= |b| && a == b[|b| - |a|..]
  }

  function Find<V>(q: seq<Entry<V>>, key: string): Option<Entry<V>> {
    if |q| == 0 then None else if q[0].key == key then Some(q[0]) else Find(q[1..], key)
  }

  lemma {:induction false} FindMember<V>(q: seq<Entry<V>>, e: Entry<V>)
    requires UniqueKeys(q)
    ensures Find(q, e.key) == Some(e) <==> e in q
  {
    if |q| > 0 {
      assert q == [q[0]] + q[1..];
      FindMember(q[1..], e);
    }
  }

  lemma {:induction false} FindNothing<V>(q: seq<Entry<V>>, key: string)
    ensures Find(q, key) == None <==> forall i :: 0 <= i < |q| ==> q[i].key != key
    ensures Find(q, key) != None ==> Find(q, key).value in q && Find(q, key).value.key == key
  {
    if |q| > 0 && q[0].key != key {
      FindNothing(q[1..], key);
      if forall i :: 0 <= i < |q[1..]| ==> q[1..][i].key != key {
        forall i | 0 <= i < |q|
          ensures q[i].key != key
        {
          if i > 0 {
            assert q[1..][i - 1] == q[i];
          }
        }
      }
    }
  }

  lemma {:induction false} BytesConcat<V>(a: seq<Entry<V>>, b: seq<Entry<V>>)
    ensures Bytes(a + b) == Bytes(a) + Bytes(b)
  {
    if |a| == 0 {
      assert a + b == b;
    } else {
      assert (a + b)[1..] == a[1..] + b;
      BytesConcat(a[1..], b);
    }
  }

  lemma BytesOne<V>(e: Entry<V>)
    ensures Bytes([e]) == e.size
  {
    assert Bytes([e]) == e.size + Bytes([e][1..]);
  }

  lemma {:induction false} WithoutMember<V>(q: seq<Entry<V>>, gone: set<string>, e: Entry<V>)
    ensures e in Without(q, gone) <==> e in q && e.key !in gone
  {
    if |q| > 0 {
      assert q == [q[0]] + q[1..];
      WithoutMember(q[1..], gone, e);
    }
  }

  lemma {:induction false} WithoutConcat<V>(a: seq<Entry<V>>, b: seq<Entry<V>>, gone: set<string>)
    ensures Without(a + b, gone) == Without(a, gone) + Without(b, gone)
  {
    if |a| == 0 {
      assert a + b == b;
    } else {
      assert (a + b)[1..] == a[1..] + b;
      WithoutConcat(a[1..], b, gone);
    }
  }

  lemma {:induction false} WithoutTwice<V>(q: seq<Entry<V>>, a: set<string>, b: set<string>)
    ensures Without(Without(q, a), b) == Without(q, a + b)
  {
    if |q| > 0 {
      WithoutTwice(q[1..], a, b);
      if q[0].key !in a {
        assert Without(q, a)[1..] == Without(q[1..], a);
      }
    }
  }

  lemma {:induction false} WithoutNone<V>(q: seq<Entry<V>>, gone: set<string>)
    requires forall e :: e in q ==> e.key !in gone
    ensures Without(q, gone) == q
  {
    if |q| > 0 {
      WithoutNone(q[1..], gone);
    }
  }

  /** Removing one present key removes one entry and its bytes. */
  lemma {:induction false} WithoutOne<V>(q: seq<Entry<V>>, e: Entry<V>)
    requires UniqueKeys(q) && e in q
    ensures |Without(q, {e.key})| == |q| - 1
    ensures Bytes(Without(q, {e.key})) == Bytes(q) - e.size
  {
    if q[0] == e {
      forall x | x in q[1..]
        ensures x.key != e.key
      {
        var i :| 0 <= i < |q[1..]| && q[1..][i] == x;
      }
      WithoutNone(q[1..], {e.key});
    } else {
      assert e in q[1..];
      WithoutOne(q[1..], e);
      assert q[0].key != e.key;
      assert Without(q, {e.key})[1..] == Without(q[1..], {e.key});
    }
  }

  lemma {:induction false} WithoutUniqueKeys<V>(q: seq<Entry<V>>, gone: set<string>)
    requires UniqueKeys(q)
    ensures UniqueKeys(Without(q, gone))
  {
    if |q| > 0 {
      WithoutUniqueKeys(q[1..], gone);
      var rest := Without(q[1..], gone);
      forall i | 0 <= i < |rest|
        ensures rest[i].key != q[0].key
      {
        WithoutMember(q[1..], gone, rest[i]);
        var j :| 0 <= j < |q[1..]| && q[1..][j] == rest[i];
        assert q[j + 1] == rest[i];
      }
    }
  }

  /** Dropping every expired key, in whatever order the map is walked, keeps what is alive. */
  lemma {:induction false} WithoutExpired<V>(q: seq<Entry<V>>, gone: set<string>, t: int)
    requires forall e :: e in q ==> (e.key in gone <==> e.expiresAt < t)
    ensures Without(q, gone) == Alive(q, t)
  {
    if |q| > 0 {
      WithoutExpired(q[1..], gone, t);
    }
  }

  lemma {:induction false} AliveMember<V>(q: seq<Entry<V>>, t: int, e: Entry<V>)
    ensures e in Alive(q, t) <==> e in q && e.expiresAt >= t
  {
    if |q| > 0 {
      assert q == [q[0]] + q[1..];
      AliveMember(q[1..], t, e);
    }
  }

  lemma {:induction false} AliveAll<V>(q: seq<Entry<V>>, t: int)
    requires forall e :: e in q ==> e.expiresAt >= t
    ensures Alive(q, t) == q
  {
    if |q| > 0 {
      AliveAll(q[1..], t);
    }
  }

  /** With ordered expiry times, expiry removes a prefix. */
  lemma {:induction false} AliveIsSuffix<V>(q: seq<Entry<V>>, t: int)
    requires ExpiryOrdered(q)
    ensures IsSuffix(Alive(q, t), q)
  {
    if |q| > 0 {
      if q[0].expiresAt < t {
        AliveIsSuffix(q[1..], t);
      } else {
        forall e | e in q
          ensures e.expiresAt >= t
        {
          var i :| 0 <= i < |q| && q[i] == e;
        }
        AliveAll(q, t);
      }
    }
  }

  lemma SuffixTrans<V>(a: seq<Entry<V>>, b: seq<Entry<V>>, c: seq<Entry<V>>)
    requires IsSuffix(a, b) && IsSuffix(b, c)
    ensures IsSuffix(a, c)
  {
  }

  lemma SuffixAppend<V>(a: seq<Entry<V>>, b: seq<Entry<V>>, c: seq<Entry<V>>)
    requires IsSuffix(a, b)
    ensures IsSuffix(a + c, b + c)
  {
  }

  lemma WithoutSuffix<V>(a: seq<Entry<V>>, b: seq<Entry<V>>, gone: set<string>)
    requires IsSuffix(a, b)
    ensures IsSuffix(Without(a, gone), Without(b, gone))
  {
    var front := b[..|b| - |a|];
    assert b == front + a;
    WithoutConcat(front, a, gone);
  }

  lemma {:induction false} WithoutExpiryOrdered<V>(q: seq<Entry<V>>, gone: set<string>)
    requires ExpiryOrdered(q)
    ensures ExpiryOrdered(Without(q, gone))
  {
    if |q| > 0 {
      WithoutExpiryOrdered(q[1..], gone);
      var rest := Without(q[1..], gone);
      forall i | 0 <= i < |rest|
        ensures rest[i].expiresAt >= q[0].expiresAt
      {
        WithoutMember(q[1..], gone, rest[i]);
        var j :| 0 <= j < |q[1..]| && q[1..][j] == rest[i];
        assert q[j + 1] == rest[i];
      }
    }
  }

  lemma {:induction false} WithoutBytes<V>(q: seq<Entry<V>>, gone: set<string>)
    ensures Bytes(Without(q, gone)) <= Bytes(q)
  {
    if |q| > 0 {
      WithoutBytes(q[1..], gone);
      if q[0].key !in gone {
        assert Without(q, gone)[1..] == Without(q[1..], gone);
      }
    }
  }

  lemma {:induction false} AliveBytes<V>(q: seq<Entry<V>>, t: int)
    ensures Bytes(Alive(q, t)) <= Bytes(q)
  {
    if |q| > 0 {
      AliveBytes(q[1..], t);
      if q[0].expiresAt >= t {
        assert Alive(q, t)[1..] == Alive(q[1..], t);
      }
    }
  }

  lemma {:induction false} AliveTwice<V>(q: seq<Entry<V>>, t: int, later: int)
    requires t <= later
    ensures Alive(Alive(q, t), later) == Alive(q, later)
  {
    if |q| > 0 {
      AliveTwice(q[1..], t, later);
      if q[0].expiresAt >= t {
        assert Alive(q, t)[1..] == Alive(q[1..], t);
      }
    }
  }

  lemma {:induction false} AliveUniqueKeys<V>(q: seq<Entry<V>>, t: int)
    requires UniqueKeys(q)
    ensures UniqueKeys(Alive(q, t))
  {
    if |q| > 0 {
      AliveUniqueKeys(q[1..], t);
      var rest := Alive(q[1..], t);
      forall i | 0 <= i < |rest|
        ensures rest[i].key != q[0].key
      {
        AliveMember(q[1..], t, rest[i]);
        var j :| 0 <= j < |q[1..]| && q[1..][j] == rest[i];
        assert q[j + 1] == rest[i];
      }
    }
  }

  /** Removing an entry that has expired is invisible to whoever looks for live ones. */
  lemma {:induction false} AliveWithoutDead<V>(q: seq<Entry<V>>, key: string, t: int)
    requires forall i :: 0 <= i < |q| && q[i].key == key ==> q[i].expiresAt < t
    ensures Alive(Without(q, {key}), t) == Alive(q, t)
  {
    if |q| > 0 {
      AliveWithoutDead(q[1..], key, t);
      if q[0].key != key {
        assert Without(q, {key})[1..] == Without(q[1..], {key});
      }
    }
  }

  /** Removing the oldest key drops the head. */
  lemma WithoutHead<V>(q: seq<Entry<V>>)
    requires UniqueKeys(q) && |q| > 0
    ensures Without(q, {q[0].key}) == q[1..]
  {
    forall e | e in q[1..]
      ensures e.key !in {q[0].key}
    {
      var i :| 0 <= i < |q[1..]| && q[1..][i] == e;
      assert q[i + 1] == e;
    }
    WithoutNone(q[1..], {q[0].key});
  }

  /** What is left of a history when a key is put again. */
  lemma WithoutShape<V>(h: seq<Entry<V>>, key: string, bound: int)
    requires UniqueKeys(h) && ExpiryOrdered(h)
    requires forall i :: 0 <= i < |h| ==> h[i].expiresAt <= bound
    ensures var r := Without(h, {key});
            && UniqueKeys(r) && ExpiryOrdered(r)
            && forall i :: 0 <= i < |r| ==> r[i].key != key && r[i].expiresAt <= bound
  {
    var r := Without(h, {key});
    WithoutUniqueKeys(h, {key});
    WithoutExpiryOrdered(h, {key});
    forall i | 0 <= i < |r|
      ensures r[i].key != key && r[i].expiresAt <= bound
    {
      WithoutMember(h, {key}, r[i]);
      var j :| 0 <= j < |h| && h[j] == r[i];
    }
  }

  /** The entries from the one of a key on. */
  function Tail<V>(h: seq<Entry<V>>, key: string): seq<Entry<V>> {
    if |h| == 0 || h[0].key == key then h else Tail(h[1..], key)
  }

  lemma {:induction false} TailAt<V>(h: seq<Entry<V>>, i: nat)
    requires UniqueKeys(h) && i < |h|
    ensures Tail(h, h[i].key) == h[i..]
  {
    if i > 0 {
      TailAt(h[1..], i - 1);
    }
  }

  /** The entry of e starts the same tail in a suffix that holds it. */
  lemma TailOfSuffix<V>(q: seq<Entry<V>>, h: seq<Entry<V>>, e: Entry<V>) returns (j: nat)
    requires IsSuffix(q, h) && UniqueKeys(h) && e in q
    ensures j < |q| && q[j] == e && Tail(h, e.key) == q[j..]
  {
    j :| 0 <= j < |q| && q[j] == e;
    TailAt(h, |h| - |q| + j);
  }

  /** The last entry of its key is found, whatever is in front of it. */
  lemma {:induction false} FindLast<V>(q: seq<Entry<V>>, e: Entry<V>)
    requires |q| > 0 && q[|q| - 1] == e && forall i :: 0 <= i < |q| - 1 ==> q[i].key != e.key
    ensures Find(q, e.key) == Some(e)
  {
    if |q| > 1 {
      FindLast(q[1..], e);
    }
  }

  lemma BytesOfSuffix<V>(q: seq<Entry<V>>, j: nat)
    requires j <= |q|
    ensures Bytes(q[j..]) <= Bytes(q)
  {
    BytesConcat(q[..j], q[j..]);
    assert q == q[..j] + q[j..];
  }

  // ---------------------------------------------------------------- the map and the key slice

  /** items and order hold the same keys, each once, and every entry is under its own key. */
  ghost predicate Linked<V>(items: map<string, Entry<V>>, order: seq<string>) {
    && Distinct(order)
    && (forall key :: key in items <==> key in order)
    && (forall key :: key in items ==> items[key].key == key)
  }

  /** The entries in insertion order. */
  ghost function Listing<V>(items: map<string, Entry<V>>, order: seq<string>): (q: seq<Entry<V>>)
    requires forall key :: key in order ==> key in items
    ensures |q| == |order|
  {
    if |order| == 0 then [] else [items[order[0]]] + Listing(items, order[1..])
  }

  lemma {:induction false} ListingAt<V>(items: map<string, Entry<V>>, order: seq<string>, i: nat)
    requires i < |order| && forall key :: key in order ==> key in items
    ensures Listing(items, order)[i] == items[order[i]]
  {
    if i > 0 {
      ListingAt(items, order[1..], i - 1);
    }
  }

  lemma ListingKeys<V>(items: map<string, Entry<V>>, order: seq<string>)
    requires Linked(items, order)
    ensures UniqueKeys(Listing(items, order))
    ensures |items| == |order|
  {
    var q := Listing(items, order);
    forall i | 0 <= i < |q|
      ensures q[i] == items[order[i]]
    {
      ListingAt(items, order, i);
    }
    DistinctSize(order, items.Keys);
  }

  lemma ListingMember<V>(items: map<string, Entry<V>>, order: seq<string>, e: Entry<V>)
    requires Linked(items, order)
    ensures e in Listing(items, order) <==> e.key in items && items[e.key] == e
  {
    var q := Listing(items, order);
    if e in q {
      var i :| 0 <= i < |q| && q[i] == e;
      ListingAt(items, order, i);
    }
    if e.key in items && items[e.key] == e {
      var i :| 0 <= i < |order| && order[i] == e.key;
      ListingAt(items, order, i);
    }
  }

  lemma {:induction false} DistinctSize(order: seq<string>, keys: set<string>)
    requires Distinct(order) && forall key :: key in keys <==> key in order
    ensures |keys| == |order|
  {
    if |order| == 0 {
      assert keys == {};
    } else {
      var n := |order| - 1;
      forall key
        ensures key in keys - {order[n]} <==> key in order[..n]
      {
        assert order == order[..n] + [order[n]];
      }
      DistinctSize(order[..n], keys - {order[n]});
    }
  }

  /** order without one key. */
  function KeysWithout(order: seq<string>, key: string): seq<string> {
    if |order| == 0 then []
    else if order[0] == key then KeysWithout(order[1..], key)
    else [order[0]] + KeysWithout(order[1..], key)
  }

  lemma {:induction false} KeysWithoutAppend(order: seq<string>, x: string, key: string)
    ensures KeysWithout(order + [x], key) == KeysWithout(order, key) + if x == key then [] else [x]
  {
    if |order| > 0 {
      assert (order + [x])[1..] == order[1..] + [x];
      KeysWithoutAppend(order[1..], x, key);
    } else {
      assert order + [x] == [x];
    }
  }

  lemma {:induction false} KeysWithoutMembers(order: seq<string>, key: string)
    ensures forall x :: x in KeysWithout(order, key) <==> x in order && x != key
    ensures Distinct(order) ==> Distinct(KeysWithout(order, key))
  {
    if |order| > 0 {
      assert order == [order[0]] + order[1..];
      KeysWithoutMembers(order[1..], key);
      var rest := KeysWithout(order[1..], key);
      if Distinct(order) {
        forall i | 0 <= i < |rest|
          ensures rest[i] != order[0]
        {
          assert rest[i] in rest;
          var j :| 0 <= j < |order[1..]| && order[1..][j] == rest[i];
          assert order[j + 1] == rest[i];
        }
      }
    }
  }

  /** The compaction loop: it shifts the kept keys down within the slice and cuts the slice. */
  method CompactOrder(order: seq<string>, key: string) returns (r: seq<string>)
    ensures r == KeysWithout(order, key)
  {
    r := order;
    var n := 0;
    for i := 0 to |order|
      invariant n <= i && |r| == |order|
      invariant r[i..] == order[i..]
      invariant r[..n] == KeysWithout(order[..i], key)
    {
      var existing := r[i];
      assert existing == order[i] by { assert r[i..][0] == order[i..][0]; }
      assert order[..i + 1] == order[..i] + [order[i]];
      KeysWithoutAppend(order[..i], order[i], key);
      assert r[i + 1..] == order[i + 1..] by { assert r[i..][1..] == order[i..][1..]; }
      if existing != key {
        r := r[n := existing];
        n := n + 1;
        assert r[..n] == r[..n - 1] + [existing];
      }
    }
    assert order[..|order|] == order;
    r := r[..n];
  }

  lemma {:induction false} ListingWithout<V>(items: map<string, Entry<V>>, order: seq<string>, key: string)
    requires forall k :: k in order ==> k in items && items[k].key == k
    ensures forall k :: k in KeysWithout(order, key) ==> k in items - {key}
    ensures Listing(items - {key}, KeysWithout(order, key)) == Without(Listing(items, order), {key})
  {
    KeysWithoutMembers(order, key);
    if |order| > 0 {
      KeysWithoutMembers(order[1..], key);
      ListingWithout(items, order[1..], key);
      if order[0] != key {
        assert KeysWithout(order, key)[1..] == KeysWithout(order[1..], key);
      }
    }
  }

  lemma {:induction false} ListingAppend<V>(items: map<string, Entry<V>>, order: seq<string>, e: Entry<V>)
    requires e.key !in order && forall k :: k in order ==> k in items
    ensures Listing(items[e.key := e], order + [e.key]) == Listing(items, order) + [e]
  {
    if |order| == 0 {
      assert order + [e.key] == [e.key];
      assert Listing(items[e.key := e], [e.key][1..]) == [];
    } else {
      assert (order + [e.key])[1..] == order[1..] + [e.key];
      ListingAppend(items, order[1..], e);
    }
  }

  lemma RemoveKeyLinked<V>(items: map<string, Entry<V>>, order: seq<string>, key: string)
    requires Linked(items, order)
    ensures Linked(items - {key}, KeysWithout(order, key))
    ensures Listing(items - {key}, KeysWithout(order, key)) == Without(Listing(items, order), {key})
  {
    KeysWithoutMembers(order, key);
    ListingWithout(items, order, key);
  }

  /** What removing a key does to the entries: one of them and its bytes go, or nothing. */
  lemma RemoveKeyBytes<V>(items: map<string, Entry<V>>, order: seq<string>, key: string)
    requires Linked(items, order)
    ensures var q := Listing(items, order);
            if key in items
            then |Without(q, {key})| == |q| - 1 && Bytes(Without(q, {key})) == Bytes(q) - items[key].size
            else Without(q, {key}) == q
  {
    ListingKeys(items, order);
    var q := Listing(items, order);
    if key in items {
      ListingMember(items, order, items[key]);
      WithoutOne(q, items[key]);
    } else {
      forall e | e in q
        ensures e.key !in {key}
      {
        ListingMember(items, order, e);
      }
      WithoutNone(q, {key});
    }
  }

  /** Dropping some keys and then more keys is dropping both, in the map and in the listing. */
  lemma DropMore<V>(items: map<string, Entry<V>>, q: seq<Entry<V>>, gone: set<string>, more: set<string>)
    ensures items - gone - more == items - (gone + more)
    ensures Without(Without(q, gone), more) == Without(q, gone + more)
  {
    WithoutTwice(q, gone, more);
  }

  /** A walk over the map that drops every key whose entry expires before t leaves what is alive. */
  lemma ExpiryWalk<V>(items: map<string, Entry<V>>, order: seq<string>, gone: set<string>, t: int)
    requires Linked(items, order)
    requires forall key :: key in items ==> (key in gone <==> items[key].expiresAt < t)
    ensures Without(Listing(items, order), gone) == Alive(Listing(items, order), t)
  {
    var q := Listing(items, order);
    forall e | e in q
      ensures e.key in gone <==> e.expiresAt < t
    {
      ListingMember(items, order, e);
    }
    WithoutExpired(q, gone, t);
  }
}
