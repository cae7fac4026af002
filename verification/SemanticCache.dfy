/**
 The semantic query cache: a bounded list of query results in order of last use, matched by
 similarity, and the backend decorator that serves reads from it and empties it on writes.
 */
module SemanticCache {
  import opened Options
  import Seqs

  datatype Entry<K, H> = Entry(embedding: K, limit: nat, hits: seq<H>, inserted: int)

  // ----- one lookup

  predicate Fresh<K, H>(e: Entry<K, H>, ttl: Option<int>, now: int) {
    ttl.None? || now - e.inserted <= ttl.value
  }

  /** `retain`: expired entries go, the others keep their order. */
  function Expire<K, H>(entries: seq<Entry<K, H>>, ttl: Option<int>, now: int): (r: seq<Entry<K, H>>)
    ensures |r| <= |entries|
    ensures forall e <- r :: e in entries && Fresh(e, ttl, now)
  {
    if entries == [] then []
    else (if Fresh(entries[0], ttl, now) then [entries[0]] else []) + Expire(entries[1..], ttl, now)
  }

  /** An entry that may answer: it covers the limit, has not expired, and is similar enough. */
  predicate Answers<K, H>(
      e: Entry<K, H>, query: K, limit: nat, now: int, ttl: Option<int>, similarity: (K, K) -> real, least: real)
  {
    limit <= e.limit && Fresh(e, ttl, now) && similarity(query, e.embedding) >= least
  }

  /** Among the first `n` entries, the first of the most similar that may answer. */
  ghost predicate IsBest<K, H>(
      entries: seq<Entry<K, H>>, n: nat, i: nat, query: K, limit: nat, now: int, ttl: Option<int>,
      similarity: (K, K) -> real, least: real)
  {
    && i < n <= |entries| && Answers(entries[i], query, limit, now, ttl, similarity, least)
    && forall j | 0 <= j < n && Answers(entries[j], query, limit, now, ttl, similarity, least) ::
         && similarity(query, entries[j].embedding) <= similarity(query, entries[i].embedding)
         && (j < i ==> similarity(query, entries[j].embedding) < similarity(query, entries[i].embedding))
  }

  function Best<K, H>(
      entries: seq<Entry<K, H>>, n: nat, query: K, limit: nat, now: int, ttl: Option<int>,
      similarity: (K, K) -> real, least: real): (best: Option<nat>)
    requires n <= |entries|
    ensures best.None? ==> forall j | 0 <= j < n :: !Answers(entries[j], query, limit, now, ttl, similarity, least)
    ensures best.Some? ==> IsBest(entries, n, best.value, query, limit, now, ttl, similarity, least)
  {
    if n == 0 then None
    else
      var before := Best(entries, n - 1, query, limit, now, ttl, similarity, least);
      var e := entries[n - 1];
      if && Answers(e, query, limit, now, ttl, similarity, least)
         && (before.None? || similarity(query, e.embedding) > similarity(query, entries[before.value].embedding))
      then Some(n - 1)
      else before
  }

  /** An entry moved to the front, the others in order. */
  function ToFront<T>(s: seq<T>, i: nat): seq<T>
    requires i < |s|
  {
    [s[i]] + s[..i] + s[i + 1..]
  }

  datatype Config<!K> = Config(capacity: nat, least: real, ttl: Option<int>, similarity: (K, K) -> real) {
    /** What a lookup answers and how it leaves the entries; the clock is read twice. */
    function LookUp<H>(entries: seq<Entry<K, H>>, query: K, limit: nat, expiry: int, now: int)
      : (Option<seq<H>>, seq<Entry<K, H>>)
    {
      var kept := Expire(entries, ttl, expiry);
      match Best(kept, |kept|, query, limit, now, ttl, similarity, least)
      case None => (None, kept)
      case Some(i) => (Some(Seqs.Take(kept[i].hits, limit)), ToFront(kept, i))
    }

    function Inserted<H>(entries: seq<Entry<K, H>>, query: K, limit: nat, hits: seq<H>, now: int)
      : seq<Entry<K, H>>
    {
      Seqs.Take([Entry(query, limit, hits, now)] + entries, capacity)
    }
  }

  class Cache<K, H> {
    var entries: seq<Entry<K, H>>
    const cfg: Config<K>

    ghost predicate Valid() reads this {
      0 < cfg.capacity && |entries| <= cfg.capacity
    }

    constructor (capacity: nat, least: real, ttl: Option<int>, similarity: (K, K) -> real)
      ensures Valid() && entries == []
      ensures cfg == Config(if capacity == 0 then 1 else capacity, least, ttl, similarity)
    {
      entries := [];
      cfg := Config(if capacity == 0 then 1 else capacity, least, ttl, similarity);
    }

    method Lookup(query: K, limit: nat, expiry: int, now: int) returns (hits: Option<seq<H>>)
      requires Valid()
      modifies this
      ensures Valid()
      ensures (hits, entries) == cfg.LookUp(old(entries), query, limit, expiry, now)
    {
      entries := Expire(entries, cfg.ttl, expiry);
      var best: Option<nat> := None;
      for i := 0 to |entries|
        invariant entries == Expire(old(entries), cfg.ttl, expiry)
        invariant best == Best(entries, i, query, limit, now, cfg.ttl, cfg.similarity, cfg.least)
      {
        var e := entries[i];
        if limit <= e.limit && Fresh(e, cfg.ttl, now) {
          var similarity := cfg.similarity(query, e.embedding);
          if similarity >= cfg.least
             && (best.None? || similarity > cfg.similarity(query, entries[best.value].embedding)) {
            best := Some(i);
          }
        }
      }
      if best.None? {
        return None;
      }
      hits := Some(Seqs.Take(entries[best.value].hits, limit));
      entries := ToFront(entries, best.value);
    }

    method Insert(query: K, limit: nat, hits: seq<H>, now: int)
      requires Valid()
      modifies this
      ensures Valid()
      ensures entries == cfg.Inserted(old(entries), query, limit, hits, now)
    {
      entries := [Entry(query, limit, hits, now)] + entries;
      ghost var pushed := entries;
      while |entries| > cfg.capacity
        invariant |entries| <= |pushed| && entries == pushed[..|entries|]
        invariant cfg.capacity <= |entries| || entries == pushed
      {
        entries := entries[..|entries| - 1];
      }
    }

    method Clear()
      requires Valid()
      modifies this
      ensures Valid() && entries == []
    {
      entries := [];
    }
  }

  // ----- the backend behind the cache

  /** The queries, embeddings, writes, stored states and results of some backend. */
  datatype World<!Q, !K, !M, !D, !H> = World(
    vectorize: Q -> K, cacheable: Q -> bool, answer: (D, Q, nat) -> seq<H>, write: (D, M) -> D)

  datatype Op<Q, M> =
    | Find(query: Q, limit: nat, expiry: int, now: int, inserted: int)
    | Store(memory: M)

  datatype State<D, K, H> = State(db: D, entries: seq<Entry<K, H>>)

  /** One call: what it returns, and the backend and cache after it. */
  function Serve<Q, K, M, D, H>(w: World<Q, K, M, D, H>, cfg: Config<K>, s: State<D, K, H>, op: Op<Q, M>)
    : (Option<seq<H>>, State<D, K, H>)
  {
    match op
    case Store(memory) => (None, State(w.write(s.db, memory), []))
    case Find(query, limit, expiry, now, inserted) =>
      if !w.cacheable(query) then (Some(w.answer(s.db, query, limit)), s)
      else
        var (hits, entries) := cfg.LookUp(s.entries, w.vectorize(query), limit, expiry, now);
        if hits.Some? then (hits, s.(entries := entries))
        else
          var found := w.answer(s.db, query, limit);
          (Some(found), s.(entries := cfg.Inserted(entries, w.vectorize(query), limit, found, inserted)))
  }

  function ServeAll<Q, K, M, D, H>(w: World<Q, K, M, D, H>, cfg: Config<K>, s: State<D, K, H>, ops: seq<Op<Q, M>>)
    : seq<Option<seq<H>>>
    decreases |ops|
  {
    if ops == [] then []
    else
      var (result, next) := Serve(w, cfg, s, ops[0]);
      [result] + ServeAll(w, cfg, next, ops[1..])
  }

  /** The same calls without a cache. */
  function Direct<Q, K, M, D, H>(w: World<Q, K, M, D, H>, db: D, ops: seq<Op<Q, M>>): seq<Option<seq<H>>>
    decreases |ops|
  {
    if ops == [] then []
    else
      match ops[0]
      case Store(memory) => [None] + Direct(w, w.write(db, memory), ops[1..])
      case Find(query, limit, _, _, _) => [Some(w.answer(db, query, limit))] + Direct(w, db, ops[1..])
  }

  /** The decorator, with the wrapped backend's state in `db`. */
  class CachingBackend<Q, K, M, D, H> {
    const w: World<Q, K, M, D, H>
    const cache: Cache<K, H>
    var db: D

    ghost predicate Valid() reads this, cache { cache.Valid() }

    ghost function Abstract(): State<D, K, H> reads this, cache { State(db, cache.entries) }

    constructor (w: World<Q, K, M, D, H>, cache: Cache<K, H>, db: D)
      requires cache.Valid()
      ensures Valid() && this.w == w && this.cache == cache && Abstract() == State(db, cache.entries)
    {
      this.w, this.cache, this.db := w, cache, db;
    }

    method FindHits(query: Q, limit: nat, expiry: int, now: int, inserted: int) returns (hits: seq<H>)
      requires Valid()
      modifies cache
      ensures Valid()
      ensures (Some(hits), Abstract())
           == Serve(w, cache.cfg, old(Abstract()), Find(query, limit, expiry, now, inserted))
    {
      if !w.cacheable(query) {
        return w.answer(db, query, limit);
      }
      var embedding := w.vectorize(query);
      var cached := cache.Lookup(embedding, limit, expiry, now);
      if cached.Some? {
        return cached.value;
      }
      hits := w.answer(db, query, limit);
      cache.Insert(embedding, limit, hits, inserted);
    }

    method StoreMemory(memory: M)
      requires Valid()
      modifies this, cache
      ensures Valid()
      ensures Abstract() == Serve(w, cache.cfg, old(Abstract()), Store(memory)).1
    {
      db := w.write(db, memory);
      cache.Clear();
    }
  }

  // ----- when the cache cannot be noticed

  /** Similar enough queries have the same answers, also when cut to a smaller limit. */
  ghost predicate Faithful<Q(!new), K, M, D(!new), H>(w: World<Q, K, M, D, H>, cfg: Config<K>) {
    forall db, cached, query, limit: nat, less: nat ::
      SimilarEnough(w, cfg, cached, query) && less <= limit ==> Agree(w, db, cached, limit, query, less)
  }

  predicate SimilarEnough<Q, K, M, D, H>(w: World<Q, K, M, D, H>, cfg: Config<K>, cached: Q, query: Q) {
    w.cacheable(cached) && w.cacheable(query)
    && cfg.similarity(w.vectorize(query), w.vectorize(cached)) >= cfg.least
  }

  ghost predicate Agree<Q, K, M, D, H>(
      w: World<Q, K, M, D, H>, db: D, cached: Q, limit: nat, query: Q, less: nat) {
    Seqs.Take(w.answer(db, cached, limit), less) == w.answer(db, query, less)
  }

  /** An entry holds what the backend would answer now to a query with that embedding. */
  ghost predicate Current<Q(!new), K, M, D, H>(w: World<Q, K, M, D, H>, db: D, e: Entry<K, H>) {
    exists q :: w.cacheable(q) && w.vectorize(q) == e.embedding && e.hits == w.answer(db, q, e.limit)
  }

  lemma ServeFaithfully<Q(!new), K, M, D(!new), H>(
      w: World<Q, K, M, D, H>, cfg: Config<K>, s: State<D, K, H>, op: Op<Q, M>)
    requires Faithful(w, cfg) && forall e <- s.entries :: Current(w, s.db, e)
    ensures var (result, next) := Serve(w, cfg, s, op);
            && (forall e <- next.entries :: Current(w, next.db, e))
            && match op
               case Store(memory) => result == None && next.db == w.write(s.db, memory)
               case Find(query, limit, _, _, _) =>
                 result == Some(w.answer(s.db, query, limit)) && next.db == s.db
  {
    if op.Find? && w.cacheable(op.query) {
      var key := w.vectorize(op.query);
      var kept := Expire(s.entries, cfg.ttl, op.expiry);
      var best := Best(kept, |kept|, key, op.limit, op.now, cfg.ttl, cfg.similarity, cfg.least);
      if best.Some? {
        var e := kept[best.value];
        assert e in s.entries;
        var q :| w.cacheable(q) && w.vectorize(q) == e.embedding && e.hits == w.answer(s.db, q, e.limit);
        assert SimilarEnough(w, cfg, q, op.query);
        assert Agree(w, s.db, q, e.limit, op.query, op.limit);
      } else {
        var found := w.answer(s.db, op.query, op.limit);
        assert Current(w, s.db, Entry(key, op.limit, found, op.inserted));
      }
    }
  }

  lemma {:induction false} FaithfulIsTransparent<Q(!new), K, M, D(!new), H>(
      w: World<Q, K, M, D, H>, cfg: Config<K>, s: State<D, K, H>, ops: seq<Op<Q, M>>)
    requires Faithful(w, cfg) && forall e <- s.entries :: Current(w, s.db, e)
    ensures ServeAll(w, cfg, s, ops) == Direct(w, s.db, ops)
    decreases |ops|
  {
    if ops != [] {
      ServeFaithfully(w, cfg, s, ops[0]);
      FaithfulIsTransparent(w, cfg, Serve(w, cfg, s, ops[0]).1, ops[1..]);
    }
  }

  ghost predicate Transparent<Q(!new), K, M(!new), D(!new), H>(w: World<Q, K, M, D, H>, cfg: Config<K>) {
    forall db, ops :: ServeAll(w, cfg, State(db, []), ops) == Direct(w, db, ops)
  }

  /** Two similar queries asked in a row expose any disagreement between their answers. */
  lemma AskedInARow<Q, K, M, D, H>(
      w: World<Q, K, M, D, H>, cfg: Config<K>, db: D, cached: Q, limit: nat, query: Q, less: nat)
    requires cfg.capacity > 0 && (cfg.ttl.Some? ==> cfg.ttl.value >= 0)
    requires SimilarEnough(w, cfg, cached, query) && less <= limit
    requires var ops := [Find(cached, limit, 0, 0, 0), Find(query, less, 0, 0, 0)];
             ServeAll(w, cfg, State(db, []), ops) == Direct(w, db, ops)
    ensures Agree(w, db, cached, limit, query, less)
  {
    var first: Op<Q, M>, second: Op<Q, M> := Find(cached, limit, 0, 0, 0), Find(query, less, 0, 0, 0);
    var ops := [first, second];
    var start := State(db, []);
    var e := Entry(w.vectorize(cached), limit, w.answer(db, cached, limit), 0);
    var s := Serve(w, cfg, start, first).1;
    assert s.entries == [e];
    assert Expire([e], cfg.ttl, 0) == [e];
    assert Best([e], 1, w.vectorize(query), less, 0, cfg.ttl, cfg.similarity, cfg.least) == Some(0);
    assert Serve(w, cfg, s, second).0 == Some(Seqs.Take(e.hits, less));
    assert ops[1..] == [second];
    assert ServeAll(w, cfg, start, ops)[1] == ServeAll(w, cfg, s, [second])[0] == Some(Seqs.Take(e.hits, less));
    assert Direct(w, db, ops)[1] == Direct(w, db, [second])[0] == Some(w.answer(db, query, less));
  }

  /**
   Over every run of finds and stores the cached backend answers exactly like the bare one, if
   and only if similar enough queries have compatible answers.
   */
  lemma TransparentIffFaithful<Q(!new), K, M(!new), D(!new), H>(w: World<Q, K, M, D, H>, cfg: Config<K>)
    requires cfg.capacity > 0 && (cfg.ttl.Some? ==> cfg.ttl.value >= 0)
    ensures Transparent(w, cfg) <==> Faithful(w, cfg)
  {
    if Faithful(w, cfg) {
      forall db, ops ensures ServeAll(w, cfg, State(db, []), ops) == Direct(w, db, ops) {
        FaithfulIsTransparent(w, cfg, State(db, []), ops);
      }
    }
    if Transparent(w, cfg) {
      forall db, cached, query, limit: nat, less: nat |
        SimilarEnough(w, cfg, cached, query) && less <= limit
        ensures Agree(w, db, cached, limit, query, less)
      {
        AskedInARow(w, cfg, db, cached, limit, query, less);
      }
    }
  }

  // ----- least recently used

  /** Keys that match only themselves, results that never expire, one fixed limit. */
  ghost predicate ExactKeys<K(!new)>(cfg: Config<K>) {
    && cfg.ttl.None? && cfg.capacity > 0
    && forall a, b :: cfg.similarity(a, b) >= cfg.least <==> a == b
  }

  ghost predicate FixedLimit<Q, K, M, D, H>(w: World<Q, K, M, D, H>, ops: seq<Op<Q, M>>, limit: nat) {
    forall op <- ops :: op.Find? ==> w.cacheable(op.query) && op.limit == limit
  }

  function Keys<K, H>(entries: seq<Entry<K, H>>): (keys: seq<K>)
    ensures |keys| == |entries|
    ensures forall i | 0 <= i < |keys| :: keys[i] == entries[i].embedding
  {
    seq(|entries|, i requires 0 <= i < |entries| => entries[i].embedding)
  }

  function Without<K(==)>(keys: seq<K>, key: K): (r: seq<K>)
    ensures |r| <= |keys|
    ensures (forall k <- r :: k in keys && k != key) && (forall k <- keys :: k == key || k in r)
  {
    if keys == [] then []
    else (if keys[0] == key then [] else [keys[0]]) + Without(keys[1..], key)
  }

  /** All keys asked for since the last store, the most recent first: an unbounded LRU stack. */
  function Recency<Q, K(==), M, D, H>(w: World<Q, K, M, D, H>, ops: seq<Op<Q, M>>): (stack: seq<K>)
    ensures Seqs.Distinct(stack)
    decreases |ops|
  {
    if ops == [] then []
    else
      var before, op := Recency(w, ops[..|ops| - 1]), ops[|ops| - 1];
      if op.Store? then []
      else
        WithoutDistinct(before, w.vectorize(op.query));
        var rest := Without(before, w.vectorize(op.query));
        assert forall j | 0 <= j < |rest| :: rest[j] in rest;
        [w.vectorize(op.query)] + rest
  }

  lemma {:induction false} WithoutDistinct<K>(keys: seq<K>, key: K)
    requires Seqs.Distinct(keys)
    ensures Seqs.Distinct(Without(keys, key))
  {
    if keys != [] {
      var rest := Without(keys[1..], key);
      WithoutDistinct(keys[1..], key);
      forall j | 0 <= j < |rest| ensures rest[j] != keys[0] {
        assert rest[j] in rest && rest[j] in keys[1..];
      }
    }
  }

  /** The cache after a run. */
  function After<Q, K, M, D, H>(w: World<Q, K, M, D, H>, cfg: Config<K>, db: D, ops: seq<Op<Q, M>>): State<D, K, H>
    decreases |ops|
  {
    if ops == [] then State(db, [])
    else Serve(w, cfg, After(w, cfg, db, ops[..|ops| - 1]), ops[|ops| - 1]).1
  }

  lemma {:induction false} KeepAll<K, H>(entries: seq<Entry<K, H>>, now: int)
    ensures Expire(entries, None, now) == entries
  {
    if entries != [] {
      KeepAll(entries[1..], now);
      Seqs.HeadTail(entries);
    }
  }

  /** Taking a distinct key out of a list is cutting it out where it stands. */
  lemma {:induction false} WithoutAt<K>(keys: seq<K>, i: nat)
    requires Seqs.Distinct(keys) && i < |keys|
    ensures Without(keys, keys[i]) == keys[..i] + keys[i + 1..]
  {
    if i == 0 {
      WithoutAbsent(keys[1..], keys[0]);
    } else {
      WithoutAt(keys[1..], i - 1);
    }
  }

  lemma {:induction false} WithoutAbsent<K>(keys: seq<K>, key: K)
    requires key !in keys
    ensures Without(keys, key) == keys
  {
    if keys != [] {
      WithoutAbsent(keys[1..], key);
      Seqs.HeadTail(keys);
    }
  }

  /** Touching a key commutes with cutting the stack to a capacity. */
  lemma TouchCut<K>(keys: seq<K>, key: K, capacity: nat)
    requires Seqs.Distinct(keys) && capacity > 0
    ensures Seqs.Take([key] + Without(Seqs.Take(keys, capacity), key), capacity)
         == Seqs.Take([key] + Without(keys, key), capacity)
  {
    if key !in keys {
      WithoutAbsent(keys, key);
      WithoutAbsent(Seqs.Take(keys, capacity), key);
      PushCut(keys, key, capacity);
    } else {
      var i :| 0 <= i < |keys| && keys[i] == key;
      WithoutAt(keys, i);
      if |keys| <= capacity {
      } else if i < capacity {
        assert keys[..capacity][i] == key;
        WithoutAt(keys[..capacity], i);
        CutNear(keys, i, capacity);
      } else {
        WithoutAbsent(keys[..capacity], key);
        CutFar(keys, i, capacity);
      }
    }
  }

  lemma PushCut<K>(keys: seq<K>, key: K, capacity: nat)
    requires capacity > 0
    ensures Seqs.Take([key] + Seqs.Take(keys, capacity), capacity) == Seqs.Take([key] + keys, capacity)
  {
  }

  lemma CutNear<K>(keys: seq<K>, i: nat, capacity: nat)
    requires i < capacity < |keys|
    ensures Seqs.Take([keys[i]] + (keys[..capacity][..i] + keys[..capacity][i + 1..]), capacity)
         == Seqs.Take([keys[i]] + (keys[..i] + keys[i + 1..]), capacity)
  {
  }

  lemma CutFar<K>(keys: seq<K>, i: nat, capacity: nat)
    requires 0 < capacity <= i < |keys|
    ensures Seqs.Take([keys[i]] + keys[..capacity], capacity)
         == Seqs.Take([keys[i]] + (keys[..i] + keys[i + 1..]), capacity)
  {
  }

  lemma TakeShort<T>(s: seq<T>, n: nat)
    requires |s| <= n
    ensures Seqs.Take(s, n) == s
  {
  }

  /** One find in a cache of exact keys moves or puts its key to the front. */
  lemma FindTouches<Q, K(!new), M, D, H>(
      w: World<Q, K, M, D, H>, cfg: Config<K>, s: State<D, K, H>, op: Op<Q, M>)
    requires ExactKeys(cfg) && op.Find? && w.cacheable(op.query)
    requires Seqs.Distinct(Keys(s.entries)) && |s.entries| <= cfg.capacity
    requires forall e <- s.entries :: e.limit == op.limit
    ensures var key, next := w.vectorize(op.query), Serve(w, cfg, s, op).1;
            && Keys(next.entries) == Seqs.Take([key] + Without(Keys(s.entries), key), cfg.capacity)
            && (forall e <- next.entries :: e.limit == op.limit)
    ensures cfg.LookUp(s.entries, w.vectorize(op.query), op.limit, op.expiry, op.now).0.Some?
       <==> w.vectorize(op.query) in Keys(s.entries)
  {
    var key, keys := w.vectorize(op.query), Keys(s.entries);
    KeepAll(s.entries, op.expiry);
    BestIsKey(cfg, s.entries, key, op.limit, op.now);
    var best := Best(s.entries, |s.entries|, key, op.limit, op.now, cfg.ttl, cfg.similarity, cfg.least);
    hide Best, Expire, Without, Answers, ExactKeys, Seqs.Distinct, Keys, ToFront;
    if best.Some? {
      WithoutAt(keys, best.value);
      HitTouches(s.entries, best.value);
      TakeShort([key] + Without(keys, key), cfg.capacity);
    } else {
      WithoutAbsent(keys, key);
      MissTouches(s.entries, Entry(key, op.limit, w.answer(s.db, op.query, op.limit), op.inserted), cfg.capacity);
    }
  }

  /** With exact keys the best entry is the one stored under the key itself. */
  lemma BestIsKey<K(!new), H>(cfg: Config<K>, entries: seq<Entry<K, H>>, key: K, limit: nat, now: int)
    requires ExactKeys(cfg) && forall e <- entries :: e.limit == limit
    ensures var best := Best(entries, |entries|, key, limit, now, cfg.ttl, cfg.similarity, cfg.least);
            if best.None? then key !in Keys(entries)
            else best.value < |entries| && Keys(entries)[best.value] == key
  {
    var best := Best(entries, |entries|, key, limit, now, cfg.ttl, cfg.similarity, cfg.least);
    if best.None? {
      forall i | 0 <= i < |entries| ensures entries[i].embedding != key {
        assert entries[i] in entries;
        assert !Answers(entries[i], key, limit, now, cfg.ttl, cfg.similarity, cfg.least);
      }
    }
  }

  lemma MissTouches<K, H>(entries: seq<Entry<K, H>>, e: Entry<K, H>, capacity: nat)
    requires capacity > 0
    ensures Keys(Seqs.Take([e] + entries, capacity)) == Seqs.Take([e.embedding] + Keys(entries), capacity)
    ensures forall x <- Seqs.Take([e] + entries, capacity) :: x == e || x in entries
  {
    var pushed := [e] + entries;
    assert Keys(pushed) == [e.embedding] + Keys(entries);
    if |pushed| > capacity {
      assert Keys(pushed[..capacity]) == Keys(pushed)[..capacity];
    }
  }

  lemma HitTouches<K, H>(entries: seq<Entry<K, H>>, i: nat)
    requires i < |entries|
    ensures Keys(ToFront(entries, i)) == [Keys(entries)[i]] + (Keys(entries)[..i] + Keys(entries)[i + 1..])
    ensures forall e <- ToFront(entries, i) :: e in entries
  {
  }

  /** At every capacity the cache holds exactly the most recent keys of the one LRU stack. */
  lemma {:induction false} CacheIsTopOfStack<Q, K(!new), M, D, H>(
      w: World<Q, K, M, D, H>, cfg: Config<K>, db: D, ops: seq<Op<Q, M>>, limit: nat)
    requires ExactKeys(cfg) && FixedLimit(w, ops, limit)
    ensures var s := After(w, cfg, db, ops);
            && Keys(s.entries) == Seqs.Take(Recency(w, ops), cfg.capacity)
            && forall e <- s.entries :: e.limit == limit
    decreases |ops|
  {
    if ops != [] {
      var init, op := ops[..|ops| - 1], ops[|ops| - 1];
      assert op in ops && forall o :: o in init ==> o in ops;
      CacheIsTopOfStack(w, cfg, db, init, limit);
      var stack := Recency(w, init);
      if op.Find? {
        FindTouches(w, cfg, After(w, cfg, db, init), op);
        TouchCut(stack, w.vectorize(op.query), cfg.capacity);
      }
    }
  }

  /**
   Inclusion: what a smaller cache holds is the front of what a larger one holds, after every
   run; so every hit of the smaller cache is a hit of the larger one.
   */
  lemma Inclusion<Q, K(!new), M, D, H>(
      w: World<Q, K, M, D, H>, small: Config<K>, large: Config<K>, db: D, ops: seq<Op<Q, M>>, limit: nat,
      op: Op<Q, M>)
    requires ExactKeys(small) && large == small.(capacity := large.capacity)
    requires small.capacity <= large.capacity
    requires FixedLimit(w, ops, limit) && op.Find? && w.cacheable(op.query) && op.limit == limit
    ensures var s, l := After(w, small, db, ops), After(w, large, db, ops);
            && Keys(s.entries) == Seqs.Take(Keys(l.entries), small.capacity)
            && |s.entries| <= small.capacity
            && (small.LookUp(s.entries, w.vectorize(op.query), limit, op.expiry, op.now).0.Some? ==>
                large.LookUp(l.entries, w.vectorize(op.query), limit, op.expiry, op.now).0.Some?)
  {
    CacheIsTopOfStack(w, small, db, ops, limit);
    CacheIsTopOfStack(w, large, db, ops, limit);
    var s, l := After(w, small, db, ops), After(w, large, db, ops);
    FindTouches(w, small, s, op);
    FindTouches(w, large, l, op);
    TakeTake(Recency(w, ops), large.capacity, small.capacity);
  }

  lemma TakeTake<T>(s: seq<T>, n: nat, m: nat)
    requires m <= n
    ensures Seqs.Take(Seqs.Take(s, n), m) == Seqs.Take(s, m)
    ensures forall x <- Seqs.Take(s, m) :: x in Seqs.Take(s, n)
  {
  }

  /** The last use of a key: how many operations ago it was asked for. */
  function Ago<Q, K(==), M, D, H>(w: World<Q, K, M, D, H>, ops: seq<Op<Q, M>>, key: K): nat
    decreases |ops|
  {
    if ops == [] then 0
    else
      var op := ops[|ops| - 1];
      if op.Find? && w.vectorize(op.query) == key then 0 else 1 + Ago(w, ops[..|ops| - 1], key)
  }

  /** The stack is ordered by last use, so what falls off its end is least recently used. */
  lemma {:induction false} StackIsByLastUse<Q, K(!new), M, D, H>(
      w: World<Q, K, M, D, H>, ops: seq<Op<Q, M>>, i: nat, j: nat)
    requires i < j < |Recency(w, ops)|
    ensures Ago(w, ops, Recency(w, ops)[i]) < Ago(w, ops, Recency(w, ops)[j])
    decreases |ops|
  {
    var init, op := ops[..|ops| - 1], ops[|ops| - 1];
    var before, key := Recency(w, init), w.vectorize(op.query);
    BelowTop(w, ops, j);
    if i > 0 {
      BelowTop(w, ops, i);
      var a, b := WithoutOrder(before, key, i - 1, j - 1);
      StackIsByLastUse(w, init, a, b);
    }
  }

  /** Below the top of the stack nothing is the key used last. */
  lemma BelowTop<Q, K(!new), M, D, H>(w: World<Q, K, M, D, H>, ops: seq<Op<Q, M>>, i: nat)
    requires 0 < i < |Recency(w, ops)|
    ensures ops != [] && ops[|ops| - 1].Find?
    ensures var key := w.vectorize(ops[|ops| - 1].query);
            var rest := Without(Recency(w, ops[..|ops| - 1]), key);
            i - 1 < |rest| && Recency(w, ops)[i] == rest[i - 1] != key
  {
    var rest := Without(Recency(w, ops[..|ops| - 1]), w.vectorize(ops[|ops| - 1].query));
    assert rest[i - 1] in rest;
  }

  lemma {:induction false} WithoutOrder<K>(keys: seq<K>, key: K, i: nat, j: nat) returns (a: nat, b: nat)
    requires i < j < |Without(keys, key)|
    ensures a < b < |keys| && keys[a] == Without(keys, key)[i] && keys[b] == Without(keys, key)[j]
  {
    if keys[0] == key {
      a, b := WithoutOrder(keys[1..], key, i, j);
      a, b := a + 1, b + 1;
    } else if i == 0 {
      var rest := Without(keys[1..], key);
      assert rest[j - 1] in rest;
      a := 0;
      b :| 0 < b < |keys| && keys[b] == rest[j - 1];
    } else {
      a, b := WithoutOrder(keys[1..], key, i - 1, j - 1);
      a, b := a + 1, b + 1;
    }
  }
}
