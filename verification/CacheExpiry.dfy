/** What the time to live of the cache promises, and where its answers come from. */
module CacheExpiry {
  import opened Options
  import opened SemanticCache
  import Seqs

  /** The entry may answer: it covers the limit and is similar enough. */
  predicate Matches<K, H>(cfg: Config<K>, e: Entry<K, H>, query: K, limit: nat) {
    limit <= e.limit && cfg.similarity(query, e.embedding) >= cfg.least
  }

  lemma {:induction false} ExpireExactly<K, H>(entries: seq<Entry<K, H>>, t: int, now: int)
    ensures forall e :: e in Expire(entries, Some(t), now) <==> e in entries && now - e.inserted <= t
  {
    if entries != [] {
      ExpireExactly(entries[1..], t, now);
      Seqs.HeadTail(entries);
    }
  }

  lemma FrontKeeps<T>(s: seq<T>, i: nat)
    requires i < |s|
    ensures forall x :: x in ToFront(s, i) <==> x in s
  {
    Seqs.TakeDrop(s, i);
    Seqs.HeadTail(s[i..]);
  }

  /**
   With a time to live, a lookup answers only from an entry that matches and is at most that old
   at both clock readings, and does so whenever there is one; it answers with the front of that
   entry's hits. Afterwards exactly the entries young enough at the first reading are left.
   */
  lemma LookUpExpires<K, H>(
      cfg: Config<K>, entries: seq<Entry<K, H>>, query: K, limit: nat, expiry: int, now: int, t: int)
    requires cfg.ttl == Some(t)
    ensures var (hits, left) := cfg.LookUp(entries, query, limit, expiry, now);
            && (hits.Some? <==> exists e <- entries ::
                  Matches(cfg, e, query, limit) && expiry - e.inserted <= t && now - e.inserted <= t)
            && (hits.Some? ==> exists e <- entries ::
                  && Matches(cfg, e, query, limit) && expiry - e.inserted <= t && now - e.inserted <= t
                  && hits.value == (if |e.hits| <= limit then e.hits else e.hits[..limit]))
            && forall e :: e in left <==> e in entries && expiry - e.inserted <= t
  {
    var kept := Expire(entries, cfg.ttl, expiry);
    ExpireExactly(entries, t, expiry);
    var best := Best(kept, |kept|, query, limit, now, cfg.ttl, cfg.similarity, cfg.least);
    hide Best, Expire;
    if best.Some? {
      var e := kept[best.value];
      assert e in kept && Answers(e, query, limit, now, cfg.ttl, cfg.similarity, cfg.least);
      FrontKeeps(kept, best.value);
      hide ToFront;
      assert Matches(cfg, e, query, limit);
    } else {
      forall e <- entries | expiry - e.inserted <= t && now - e.inserted <= t ensures !Matches(cfg, e, query, limit) {
        assert e in kept;
        var j :| 0 <= j < |kept| && kept[j] == e;
        assert !Answers(kept[j], query, limit, now, cfg.ttl, cfg.similarity, cfg.least);
      }
    }
  }

  /** Without a time to live nothing expires. */
  lemma LookUpForEver<K, H>(
      cfg: Config<K>, entries: seq<Entry<K, H>>, query: K, limit: nat, expiry: int, now: int)
    requires cfg.ttl == None
    ensures var (hits, left) := cfg.LookUp(entries, query, limit, expiry, now);
            && (hits.Some? <==> exists e <- entries :: Matches(cfg, e, query, limit))
            && forall e :: e in left <==> e in entries
  {
    KeepAll(entries, expiry);
    var best := Best(entries, |entries|, query, limit, now, cfg.ttl, cfg.similarity, cfg.least);
    hide Best, Expire;
    if best.Some? {
      assert Answers(entries[best.value], query, limit, now, cfg.ttl, cfg.similarity, cfg.least);
      assert Matches(cfg, entries[best.value], query, limit);
      FrontKeeps(entries, best.value);
    } else {
      forall e <- entries ensures !Matches(cfg, e, query, limit) {
        var j :| 0 <= j < |entries| && entries[j] == e;
        assert !Answers(entries[j], query, limit, now, cfg.ttl, cfg.similarity, cfg.least);
      }
    }
  }

  /** A find after everything has expired answers as without a cache, and leaves only its own entry. */
  lemma FindAfterExpiry<Q, K, M, D, H>(
      w: World<Q, K, M, D, H>, cfg: Config<K>, s: State<D, K, H>, op: Op<Q, M>, t: int)
    requires cfg.ttl == Some(t) && cfg.capacity > 0 && op.Find? && w.cacheable(op.query)
    requires forall e <- s.entries :: op.expiry - e.inserted > t
    ensures var answer := w.answer(s.db, op.query, op.limit);
            Serve(w, cfg, s, op)
            == (Some(answer), State(s.db, [Entry(w.vectorize(op.query), op.limit, answer, op.inserted)]))
  {
    var key := w.vectorize(op.query);
    LookUpExpires(cfg, s.entries, key, op.limit, op.expiry, op.now, t);
    var left := cfg.LookUp(s.entries, key, op.limit, op.expiry, op.now).1;
    Seqs.NoMember(left);
    Seqs.Empty([Entry(key, op.limit, w.answer(s.db, op.query, op.limit), op.inserted)]);
  }

  // ----- where answers come from

  /** The entry is what the backend, as it is now, answered to the find at `i`, nothing being stored since. */
  ghost predicate From<Q, K, M, D, H>(
      w: World<Q, K, M, D, H>, db: D, ops: seq<Op<Q, M>>, e: Entry<K, H>, i: nat)
  {
    && i < |ops| && ops[i].Find? && w.cacheable(ops[i].query)
    && (forall j | i <= j < |ops| :: !ops[j].Store?)
    && e == Entry(w.vectorize(ops[i].query), ops[i].limit, w.answer(db, ops[i].query, ops[i].limit), ops[i].inserted)
  }

  ghost predicate Sourced<Q, K, M, D, H>(w: World<Q, K, M, D, H>, db: D, ops: seq<Op<Q, M>>, e: Entry<K, H>) {
    exists i: nat :: From(w, db, ops, e, i)
  }

  lemma StillSourced<Q, K, M, D, H>(
      w: World<Q, K, M, D, H>, db: D, ops: seq<Op<Q, M>>, op: Op<Q, M>, e: Entry<K, H>)
    requires Sourced(w, db, ops, e) && !op.Store?
    ensures Sourced(w, db, ops + [op], e)
  {
    var i: nat :| From(w, db, ops, e, i);
    assert From(w, db, ops + [op], e, i);
  }

  lemma LookUpLeaves<K, H>(
      cfg: Config<K>, entries: seq<Entry<K, H>>, query: K, limit: nat, expiry: int, now: int)
    ensures forall e <- cfg.LookUp(entries, query, limit, expiry, now).1 :: e in entries
  {
    if cfg.ttl.Some? {
      LookUpExpires(cfg, entries, query, limit, expiry, now, cfg.ttl.value);
    } else {
      LookUpForEver(cfg, entries, query, limit, expiry, now);
    }
  }

  ghost predicate AllSourced<Q, K, M, D, H>(w: World<Q, K, M, D, H>, s: State<D, K, H>, ops: seq<Op<Q, M>>) {
    forall e <- s.entries :: Sourced(w, s.db, ops, e)
  }

  lemma StepSourced<Q, K, M, D, H>(
      w: World<Q, K, M, D, H>, cfg: Config<K>, s: State<D, K, H>, ops: seq<Op<Q, M>>, op: Op<Q, M>)
    requires AllSourced(w, s, ops)
    ensures AllSourced(w, Serve(w, cfg, s, op).1, ops + [op])
  {
    var next := Serve(w, cfg, s, op).1;
    if op.Find? {
      forall e <- s.entries ensures Sourced(w, s.db, ops + [op], e) {
        StillSourced(w, s.db, ops, op, e);
      }
      if w.cacheable(op.query) {
        var key := w.vectorize(op.query);
        var own := Entry(key, op.limit, w.answer(s.db, op.query, op.limit), op.inserted);
        LookUpLeaves(cfg, s.entries, key, op.limit, op.expiry, op.now);
        assert From(w, s.db, ops + [op], own, |ops|);
        assert forall e <- next.entries :: e == own || e in s.entries;
      }
    }
  }

  /** Over every run, all a cache holds are answers of the present backend to finds since the last store. */
  lemma {:induction false} EntriesAreAnswers<Q, K, M, D, H>(
      w: World<Q, K, M, D, H>, cfg: Config<K>, db: D, ops: seq<Op<Q, M>>)
    ensures AllSourced(w, After(w, cfg, db, ops), ops)
    decreases |ops|
  {
    if ops != [] {
      var init, op := ops[..|ops| - 1], ops[|ops| - 1];
      hide AllSourced, Serve;
      EntriesAreAnswers(w, cfg, db, init);
      StepSourced(w, cfg, After(w, cfg, db, init), init, op);
      assert ops == init + [op];
    }
  }

  /** So what a find serves is recent: an answer of the present backend, at most the time to live old. */
  lemma ServedIsRecent<Q, K, M, D, H>(
      w: World<Q, K, M, D, H>, cfg: Config<K>, db: D, ops: seq<Op<Q, M>>, op: Op<Q, M>, t: int)
    requires cfg.ttl == Some(t) && op.Find? && w.cacheable(op.query)
    ensures var s := After(w, cfg, db, ops);
            var (hits, _) := cfg.LookUp(s.entries, w.vectorize(op.query), op.limit, op.expiry, op.now);
            hits.Some? ==> exists e, i: nat ::
              && From(w, s.db, ops, e, i) && op.now - ops[i].inserted <= t && op.expiry - ops[i].inserted <= t
              && hits.value == (if |e.hits| <= op.limit then e.hits else e.hits[..op.limit])
  {
    EntriesAreAnswers(w, cfg, db, ops);
    hide After;
    ServedFrom(w, cfg, After(w, cfg, db, ops), ops, op, t);
  }

  lemma ServedFrom<Q, K, M, D, H>(
      w: World<Q, K, M, D, H>, cfg: Config<K>, s: State<D, K, H>, ops: seq<Op<Q, M>>, op: Op<Q, M>, t: int)
    requires cfg.ttl == Some(t) && op.Find? && AllSourced(w, s, ops)
    ensures var (hits, _) := cfg.LookUp(s.entries, w.vectorize(op.query), op.limit, op.expiry, op.now);
            hits.Some? ==> exists e, i: nat ::
              && From(w, s.db, ops, e, i) && op.now - ops[i].inserted <= t && op.expiry - ops[i].inserted <= t
              && hits.value == (if |e.hits| <= op.limit then e.hits else e.hits[..op.limit])
  {
    var key := w.vectorize(op.query);
    LookUpExpires(cfg, s.entries, key, op.limit, op.expiry, op.now, t);
    var hits := cfg.LookUp(s.entries, key, op.limit, op.expiry, op.now).0;
    if hits.Some? {
      var e :| && e in s.entries && Matches(cfg, e, key, op.limit)
               && op.expiry - e.inserted <= t && op.now - e.inserted <= t
               && hits.value == (if |e.hits| <= op.limit then e.hits else e.hits[..op.limit]);
      assert Sourced(w, s.db, ops, e);
      var i: nat :| From(w, s.db, ops, e, i);
    }
  }
}
