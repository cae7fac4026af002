/** One eviction pass: which records are archived or deleted, and why. */
module Eviction {
  import opened Options
  import opened Decay
  import Seqs
  import Sorting

  datatype MemoryState = Active | Archived | Retracted

  datatype Record = Record(id: string, createdAt: int, usage: Usage, state: MemoryState)

  datatype Policy = Policy(
    ttlDays: Option<real>, lru: bool, minStrength: Option<real>, maxKeep: Option<nat>, hard: bool, cfg: DecayConfig)

  datatype Action = Archive | Delete

  datatype Reason = HardDelete | Ttl | TooWeak | Lru | OverCap

  datatype LogEntry = LogEntry(recordId: string, action: Action, reason: Reason, strength: real)

  datatype Scored = Scored(record: Record, strength: real)

  function AgeInDays(r: Record, now: int): real {
    Days(now - (if r.usage.lastAccess.Some? then r.usage.lastAccess.value else r.createdAt))
  }

  predicate UtilityProtected(s: Scored) {
    s.record.usage.usefulCount > 0 && s.strength >= 1.0
  }

  predicate TtlHits(s: Scored, ttlDays: real, now: int) {
    AgeInDays(s.record, now) > ttlDays && !UtilityProtected(s)
  }

  predicate Weak(s: Scored, minStrength: real) {
    s.strength < minStrength
  }

  // ----- the pass as a function

  /** The ids archived so far, and the log. */
  datatype Pass = Pass(archived: set<string>, log: seq<LogEntry>)

  /** `archived_ids.insert` and the log entry that goes with it. */
  function Archiving(p: Pass, s: Scored, reason: Reason): Pass {
    if s.record.id in p.archived then p
    else Pass(p.archived + {s.record.id}, p.log + [LogEntry(s.record.id, Archive, reason, s.strength)])
  }

  /** One rule over the first `n` scored records. */
  function Sweep(scored: seq<Scored>, n: nat, p: Pass, hits: Scored -> bool, reason: Reason): Pass
    requires n <= |scored|
  {
    if n == 0 then p
    else
      var before := Sweep(scored, n - 1, p, hits, reason);
      if hits(scored[n - 1]) then Archiving(before, scored[n - 1], reason) else before
  }

  /** The cap rule: up to `quota` records that are still there, in order. */
  function Cap(scored: seq<Scored>, n: nat, p: Pass, quota: nat): (r: (Pass, nat))
    requires n <= |scored|
    ensures r.1 <= quota
  {
    if n == 0 then (p, 0)
    else
      var (before, evicted) := Cap(scored, n - 1, p, quota);
      if evicted >= quota || scored[n - 1].record.id in before.archived then (before, evicted)
      else (Archiving(before, scored[n - 1], OverCap), evicted + 1)
  }

  /** How many of the first `n` are not archived. */
  function Left(scored: seq<Scored>, n: nat, archived: set<string>): nat
    requires n <= |scored|
  {
    if n == 0 then 0 else Left(scored, n - 1, archived) + if scored[n - 1].record.id in archived then 0 else 1
  }

  function Score(exp: real -> real, records: seq<Record>, cfg: DecayConfig, now: int): seq<Scored>
    requires cfg.floor <= cfg.accessBoost
  {
    if records == [] then []
    else
      (if records[0].state == Active then [Scored(records[0], Strength(exp, records[0].usage, cfg, now))] else [])
      + Score(exp, records[1..], cfg, now)
  }

  function Deletions(exp: real -> real, records: seq<Record>, cfg: DecayConfig, now: int): seq<LogEntry>
    requires cfg.floor <= cfg.accessBoost
  {
    if records == [] then []
    else
      (if records[0].state == Archived
       then [LogEntry(records[0].id, Delete, HardDelete, Strength(exp, records[0].usage, cfg, now))] else [])
      + Deletions(exp, records[1..], cfg, now)
  }

  predicate Weaker(a: Scored, b: Scored) { a.strength < b.strength }

  function Anyone(): Scored -> bool {
    _ => true
  }

  /** The pass after the age rule. */
  function Aged(scored: seq<Scored>, policy: Policy, now: int): Pass {
    var start := Pass({}, []);
    if policy.ttlDays.None? then start
    else Sweep(scored, |scored|, start, s => TtlHits(s, policy.ttlDays.value, now), Ttl)
  }

  /** The pass after the rules that look at one record at a time. */
  function AfterRules(scored: seq<Scored>, policy: Policy, now: int): Pass {
    var aged := Aged(scored, policy, now);
    if policy.minStrength.None? then aged
    else Sweep(scored, |scored|, aged, (s: Scored) => Weak(s, policy.minStrength.value), TooWeak)
  }

  function HalfOf(n: nat): nat {
    var half := if n / 2 < 1 then 1 else n / 2;
    if half < n then half else n
  }

  function Excess(scored: seq<Scored>, p: Pass, maxKeep: nat): nat {
    var left := Left(scored, |scored|, p.archived);
    if left > maxKeep then left - maxKeep else 0
  }

  /** The pass after all rules, over records ordered from weak to strong where a rule needs it. */
  function AfterAll(scored: seq<Scored>, policy: Policy, now: int): Pass {
    var p := AfterRules(scored, policy, now);
    var sorted := if policy.lru || policy.maxKeep.Some? then Sorting.Sort(scored, Weaker) else scored;
    if policy.maxKeep.Some? then Cap(sorted, |sorted|, p, Excess(sorted, p, policy.maxKeep.value)).0
    else if policy.lru then
      SortLength(scored);
      Sweep(sorted, HalfOf(|sorted|), p, Anyone(), Lru)
    else p
  }

  lemma SortLength(scored: seq<Scored>)
    ensures |Sorting.Sort(scored, Weaker)| == |scored|
  {
    Sorting.SortKeeps(scored, Weaker);
  }

  function EvictionLog(exp: real -> real, records: seq<Record>, policy: Policy, now: int): seq<LogEntry>
    requires policy.cfg.floor <= policy.cfg.accessBoost
  {
    (if policy.hard then Deletions(exp, records, policy.cfg, now) else [])
    + AfterAll(Score(exp, records, policy.cfg, now), policy, now).log
  }

  // ----- the pass as it is written

  method ScoreActive(exp: real -> real, records: seq<Record>, cfg: DecayConfig, now: int) returns (scored: seq<Scored>)
    requires cfg.floor <= cfg.accessBoost
    ensures scored == Score(exp, records, cfg, now)
  {
    scored := [];
    assert records[0..] == records;
    for i := 0 to |records|
      invariant scored + Score(exp, records[i..], cfg, now) == Score(exp, records, cfg, now)
    {
      Seqs.DropStep(records, i);
      if records[i].state == Active {
        scored := scored + [Scored(records[i], Strength(exp, records[i].usage, cfg, now))];
      }
    }
  }

  method DeleteArchived(exp: real -> real, records: seq<Record>, cfg: DecayConfig, now: int)
    returns (log: seq<LogEntry>)
    requires cfg.floor <= cfg.accessBoost
    ensures log == Deletions(exp, records, cfg, now)
  {
    log := [];
    assert records[0..] == records;
    for i := 0 to |records|
      invariant log + Deletions(exp, records[i..], cfg, now) == Deletions(exp, records, cfg, now)
    {
      Seqs.DropStep(records, i);
      if records[i].state == Archived {
        log := log + [LogEntry(records[i].id, Delete, HardDelete, Strength(exp, records[i].usage, cfg, now))];
      }
    }
  }

  method RunRule(scored: seq<Scored>, n: nat, p: Pass, hits: Scored -> bool, reason: Reason) returns (r: Pass)
    requires n <= |scored|
    ensures r == Sweep(scored, n, p, hits, reason)
  {
    r := p;
    for i := 0 to n
      invariant r == Sweep(scored, i, p, hits, reason)
    {
      var s := scored[i];
      if hits(s) && s.record.id !in r.archived {
        r := Pass(r.archived + {s.record.id}, r.log + [LogEntry(s.record.id, Archive, reason, s.strength)]);
      }
    }
  }

  method RunCap(scored: seq<Scored>, p: Pass, maxKeep: nat) returns (r: Pass)
    ensures r == Cap(scored, |scored|, p, Excess(scored, p, maxKeep)).0
  {
    var remaining := 0;
    for i := 0 to |scored|
      invariant remaining == Left(scored, i, p.archived)
    {
      if scored[i].record.id !in p.archived {
        remaining := remaining + 1;
      }
    }
    r := p;
    if remaining <= maxKeep {
      NoQuota(scored, |scored|, p);
      return;
    }
    var quota, evicted, i := remaining - maxKeep, 0, 0;
    while i < |scored| && evicted < quota
      invariant i <= |scored| && (r, evicted) == Cap(scored, i, p, quota)
    {
      var s := scored[i];
      if s.record.id !in r.archived {
        r := Pass(r.archived + {s.record.id}, r.log + [LogEntry(s.record.id, Archive, OverCap, s.strength)]);
        evicted := evicted + 1;
      }
      i := i + 1;
    }
    QuotaMet(scored, i, |scored|, p, quota);
  }

  lemma {:induction false} NoQuota(scored: seq<Scored>, n: nat, p: Pass)
    requires n <= |scored|
    ensures Cap(scored, n, p, 0) == (p, 0)
  {
    if n > 0 { NoQuota(scored, n - 1, p); }
  }

  lemma {:induction false} QuotaMet(scored: seq<Scored>, i: nat, n: nat, p: Pass, quota: nat)
    requires i <= n <= |scored| && (i == n || Cap(scored, i, p, quota).1 >= quota)
    ensures Cap(scored, n, p, quota) == Cap(scored, i, p, quota)
  {
    if i < n { QuotaMet(scored, i, n - 1, p, quota); }
  }

  /** `evict` */
  method Evict(exp: real -> real, records: seq<Record>, policy: Policy, now: int)
    returns (log: seq<LogEntry>, archived: nat, deleted: nat)
    requires policy.cfg.floor <= policy.cfg.accessBoost
    ensures log == EvictionLog(exp, records, policy, now)
    ensures archived == Count(log, Archive) && deleted == Count(log, Delete)
  {
    log := [];
    if policy.hard {
      log := DeleteArchived(exp, records, policy.cfg, now);
    }
    var scored := ScoreActive(exp, records, policy.cfg, now);
    var p := Pass({}, []);
    if policy.ttlDays.Some? {
      p := RunRule(scored, |scored|, p, s => TtlHits(s, policy.ttlDays.value, now), Ttl);
    }
    if policy.minStrength.Some? {
      p := RunRule(scored, |scored|, p, (s: Scored) => Weak(s, policy.minStrength.value), TooWeak);
    }
    if policy.lru || policy.maxKeep.Some? {
      SortLength(scored);
      scored := Sorting.Sort(scored, Weaker);
    }
    if policy.lru && policy.maxKeep.None? {
      p := RunRule(scored, HalfOf(|scored|), p, Anyone(), Lru);
    }
    if policy.maxKeep.Some? {
      p := RunCap(scored, p, policy.maxKeep.value);
    }
    log := log + p.log;
    archived := CountActions(log, Archive);
    deleted := CountActions(log, Delete);
  }

  function Count(log: seq<LogEntry>, action: Action): nat {
    if log == [] then 0 else (if log[0].action == action then 1 else 0) + Count(log[1..], action)
  }

  method CountActions(log: seq<LogEntry>, action: Action) returns (n: nat)
    ensures n == Count(log, action)
  {
    n := 0;
    for i := 0 to |log|
      invariant n + Count(log[i..], action) == Count(log, action)
    {
      Seqs.DropStep(log, i);
      if log[i].action == action {
        n := n + 1;
      }
    }
  }

  // ----- distinct ids

  predicate DistinctRecords(records: seq<Record>) {
    forall i, j | 0 <= i < j < |records| :: records[i].id != records[j].id
  }

  predicate DistinctIds(scored: seq<Scored>) {
    forall i, j | 0 <= i < j < |scored| :: scored[i].record.id != scored[j].record.id
  }

  /** The active records, scored, and nothing else. */
  lemma {:induction false} ScoreMembers(exp: real -> real, records: seq<Record>, cfg: DecayConfig, now: int)
    requires cfg.floor <= cfg.accessBoost
    ensures forall s ::
      (s in Score(exp, records, cfg, now)
       <==> s.record in records && s.record.state == Active && s.strength == Strength(exp, s.record.usage, cfg, now))
  {
    if records != [] {
      ScoreMembers(exp, records[1..], cfg, now);
      assert forall r :: r in records <==> r == records[0] || r in records[1..];
    }
  }

  lemma {:induction false} ScoreDistinct(exp: real -> real, records: seq<Record>, cfg: DecayConfig, now: int)
    requires cfg.floor <= cfg.accessBoost && DistinctRecords(records)
    ensures DistinctIds(Score(exp, records, cfg, now))
  {
    if records != [] {
      var rest := Score(exp, records[1..], cfg, now);
      ScoreDistinct(exp, records[1..], cfg, now);
      ScoreMembers(exp, records[1..], cfg, now);
      forall j | 0 <= j < |rest| ensures rest[j].record.id != records[0].id {
        assert rest[j] in rest;
        var k :| 0 <= k < |records[1..]| && records[1..][k] == rest[j].record;
      }
    }
  }

  lemma RearrangedDistinct(scored: seq<Scored>, sorted: seq<Scored>)
    requires DistinctIds(scored) && multiset(sorted) == multiset(scored)
    ensures DistinctIds(sorted)
  {
    forall i, j | 0 <= i < j < |sorted| ensures sorted[i].record.id != sorted[j].record.id {
      assert sorted[i] in multiset(scored) && sorted[j] in multiset(scored);
      var a :| 0 <= a < |scored| && scored[a] == sorted[i];
      var b :| 0 <= b < |scored| && scored[b] == sorted[j];
      if a == b {
        Seqs.TwiceIn(sorted, i, j);
        Seqs.OnceIn(scored, a);
      }
    }
  }

  // ----- every record at most once

  /** The log archives exactly the archived ids, each once. */
  ghost predicate LogOk(p: Pass) {
    && (forall e <- p.log :: e.action == Archive && e.recordId in p.archived)
    && (forall id <- p.archived :: exists e <- p.log :: e.recordId == id)
    && OnceEach(p.log)
  }

  predicate OnceEach(log: seq<LogEntry>) {
    forall i, j | 0 <= i < j < |log| :: log[i].recordId != log[j].recordId
  }

  function EntryOf(s: Scored, reason: Reason): LogEntry {
    LogEntry(s.record.id, Archive, reason, s.strength)
  }

  lemma ArchivingOk(p: Pass, s: Scored, reason: Reason)
    requires LogOk(p)
    ensures LogOk(Archiving(p, s, reason))
  {
    var r := Archiving(p, s, reason);
    if s.record.id !in p.archived {
      assert forall i | 0 <= i < |p.log| :: p.log[i] in p.log;
      forall id <- r.archived ensures exists e <- r.log :: e.recordId == id {
        if id == s.record.id {
          assert EntryOf(s, reason) in r.log;
        } else {
          var e :| e in p.log && e.recordId == id;
          assert e in r.log;
        }
      }
    }
  }

  lemma {:induction false} SweepOk(scored: seq<Scored>, n: nat, p: Pass, hits: Scored -> bool, reason: Reason)
    requires n <= |scored| && LogOk(p)
    ensures LogOk(Sweep(scored, n, p, hits, reason))
  {
    if n > 0 {
      SweepOk(scored, n - 1, p, hits, reason);
      ArchivingOk(Sweep(scored, n - 1, p, hits, reason), scored[n - 1], reason);
    }
  }

  lemma {:induction false} CapOk(scored: seq<Scored>, n: nat, p: Pass, quota: nat)
    requires n <= |scored| && LogOk(p)
    ensures LogOk(Cap(scored, n, p, quota).0)
  {
    if n > 0 {
      CapOk(scored, n - 1, p, quota);
      ArchivingOk(Cap(scored, n - 1, p, quota).0, scored[n - 1], OverCap);
    }
  }

  /** What a rule logs: what was logged before, and the records it hits that were still there. */
  lemma {:induction false} SweepLogs(scored: seq<Scored>, n: nat, p: Pass, hits: Scored -> bool, reason: Reason)
    requires n <= |scored| && DistinctIds(scored)
    ensures var r := Sweep(scored, n, p, hits, reason);
            && (forall e :: e in r.log <==> e in p.log || exists i: nat ::
                  i < n && hits(scored[i]) && scored[i].record.id !in p.archived && e == EntryOf(scored[i], reason))
            && (forall id :: id in r.archived <==> id in p.archived || exists i: nat ::
                  i < n && hits(scored[i]) && id == scored[i].record.id)
  {
    if n > 0 {
      var before, s := Sweep(scored, n - 1, p, hits, reason), scored[n - 1];
      SweepLogs(scored, n - 1, p, hits, reason);
      assert s.record.id in before.archived <==> s.record.id in p.archived by {
        NewIdAt(scored, n - 1);
      }
      if hits(s) {
        ArchivingLogs(before, s, reason);
      }
    }
  }

  lemma NewIdAt(scored: seq<Scored>, n: nat)
    requires DistinctIds(scored) && n < |scored|
    ensures forall i: nat | i < n :: scored[i].record.id != scored[n].record.id
  {
  }

  lemma ArchivingLogs(p: Pass, s: Scored, reason: Reason)
    ensures var r := Archiving(p, s, reason);
            && (forall e :: e in r.log <==> e in p.log || (s.record.id !in p.archived && e == EntryOf(s, reason)))
            && (forall id :: id in r.archived <==> id in p.archived || id == s.record.id)
  {
  }

  /** What the cap rule does: it takes from the front, as many as the quota and the rest allow. */
  lemma {:induction false} CapTakes(scored: seq<Scored>, n: nat, p: Pass, quota: nat)
    requires n <= |scored| && DistinctIds(scored)
    ensures var (r, evicted) := Cap(scored, n, p, quota);
            && evicted == (if Left(scored, n, p.archived) < quota then Left(scored, n, p.archived) else quota)
            && Left(scored, n, r.archived) == Left(scored, n, p.archived) - evicted
            && |r.log| == |p.log| + evicted
            && (forall e <- r.log :: e in p.log || (e.reason == OverCap && exists i: nat ::
                  i < n && scored[i].record.id !in p.archived && e == EntryOf(scored[i], OverCap)))
            && (forall id <- p.archived :: id in r.archived)
            && (forall id <- r.archived :: id in p.archived || exists i: nat :: i < n && id == scored[i].record.id)
  {
    if n > 0 {
      var before, evicted := Cap(scored, n - 1, p, quota).0, Cap(scored, n - 1, p, quota).1;
      CapTakes(scored, n - 1, p, quota);
      var s := scored[n - 1];
      assert s.record.id in before.archived ==> s.record.id in p.archived;
      LeftWithout(scored, n - 1, before.archived, s.record.id);
    }
  }

  /** An id that none of the first `n` has does not change how many are left. */
  lemma {:induction false} LeftWithout(scored: seq<Scored>, n: nat, archived: set<string>, id: string)
    requires n <= |scored| && forall i | 0 <= i < n :: scored[i].record.id != id
    ensures Left(scored, n, archived + {id}) == Left(scored, n, archived)
  {
    if n > 0 { LeftWithout(scored, n - 1, archived, id); }
  }

  /** Whoever the cap rule spares stands behind everyone it takes. */
  lemma {:induction false} CapTakesFront(scored: seq<Scored>, n: nat, p: Pass, quota: nat, i: nat, j: nat)
    requires n <= |scored| && DistinctIds(scored) && i < n && j < n
    requires var r := Cap(scored, n, p, quota).0;
             scored[i].record.id in r.archived && scored[i].record.id !in p.archived
             && scored[j].record.id !in r.archived
    ensures i < j
  {
    var before, evicted := Cap(scored, n - 1, p, quota).0, Cap(scored, n - 1, p, quota).1;
    CapTakes(scored, n - 1, p, quota);
    if i < n - 1 && j < n - 1 {
      CapTakesFront(scored, n - 1, p, quota, i, j);
    } else if i == n - 1 && j < n - 1 {
      CapNotFull(scored, n - 1, p, quota, j);
    }
  }

  /** As long as the quota is not met, nobody is spared. */
  lemma {:induction false} CapNotFull(scored: seq<Scored>, n: nat, p: Pass, quota: nat, j: nat)
    requires j < n <= |scored| && Cap(scored, n, p, quota).1 < quota
    ensures scored[j].record.id in Cap(scored, n, p, quota).0.archived
  {
    if j < n - 1 { CapNotFull(scored, n - 1, p, quota, j); }
  }

  // ----- the whole pass

  /** Every entry of a pass archives one of the scored records, with its strength. */
  ghost predicate LogsScored(p: Pass, scored: seq<Scored>) {
    forall e <- p.log :: exists s <- scored :: e == EntryOf(s, e.reason)
  }

  lemma SweepLogsScored(scored: seq<Scored>, n: nat, p: Pass, hits: Scored -> bool, reason: Reason)
    requires n <= |scored| && DistinctIds(scored) && LogsScored(p, scored)
    ensures LogsScored(Sweep(scored, n, p, hits, reason), scored)
  {
    SweepLogs(scored, n, p, hits, reason);
  }

  lemma RulesOk(scored: seq<Scored>, policy: Policy, now: int)
    requires DistinctIds(scored)
    ensures LogOk(AfterRules(scored, policy, now)) && LogsScored(AfterRules(scored, policy, now), scored)
  {
    var n, p := |scored|, Pass({}, []);
    if policy.ttlDays.Some? {
      var hits := s => TtlHits(s, policy.ttlDays.value, now);
      SweepOk(scored, n, p, hits, Ttl);
      SweepLogsScored(scored, n, p, hits, Ttl);
      p := Sweep(scored, n, p, hits, Ttl);
    }
    if policy.minStrength.Some? {
      var hits := (s: Scored) => Weak(s, policy.minStrength.value);
      SweepOk(scored, n, p, hits, TooWeak);
      SweepLogsScored(scored, n, p, hits, TooWeak);
    }
  }

  lemma SortedDistinct(scored: seq<Scored>)
    requires DistinctIds(scored)
    ensures var sorted := Sorting.Sort(scored, Weaker);
            && DistinctIds(sorted) && |sorted| == |scored|
            && (forall s :: s in sorted <==> s in scored)
            && forall i, j | 0 <= i < j < |sorted| :: sorted[i].strength <= sorted[j].strength
  {
    var sorted := Sorting.Sort(scored, Weaker);
    Sorting.SortKeeps(scored, Weaker);
    Sorting.SortMembers(scored, Weaker);
    Sorting.SortSorts(scored, Weaker);
    RearrangedDistinct(scored, sorted);
    forall i, j | 0 <= i < j < |sorted| ensures sorted[i].strength <= sorted[j].strength {
      assert !Weaker(sorted[j], sorted[i]);
    }
  }

  lemma AllOk(scored: seq<Scored>, policy: Policy, now: int)
    requires DistinctIds(scored)
    ensures LogOk(AfterAll(scored, policy, now)) && LogsScored(AfterAll(scored, policy, now), scored)
  {
    var p, sorted := AfterRules(scored, policy, now), Sorting.Sort(scored, Weaker);
    RulesOk(scored, policy, now);
    SortedDistinct(scored);
    if policy.maxKeep.Some? {
      var quota := Excess(sorted, p, policy.maxKeep.value);
      CapOk(sorted, |sorted|, p, quota);
      CapTakes(sorted, |sorted|, p, quota);
    } else if policy.lru {
      SweepOk(sorted, HalfOf(|sorted|), p, Anyone(), Lru);
      SweepLogsScored(sorted, HalfOf(|sorted|), p, Anyone(), Lru);
    }
  }

  predicate HasEntry(log: seq<LogEntry>, id: string, action: Action) {
    exists e <- log :: e.recordId == id && e.action == action
  }

  predicate HasRecord(records: seq<Record>, id: string, state: MemoryState) {
    exists r <- records :: r.id == id && r.state == state
  }

  /** The entry is for one of the archived records, with its strength. */
  ghost predicate DeletedFrom(exp: real -> real, records: seq<Record>, cfg: DecayConfig, now: int, e: LogEntry)
    requires cfg.floor <= cfg.accessBoost
  {
    exists r <- records ::
      r.state == Archived && e == LogEntry(r.id, Delete, HardDelete, Strength(exp, r.usage, cfg, now))
  }

  lemma DeletedStill(exp: real -> real, records: seq<Record>, cfg: DecayConfig, now: int, e: LogEntry)
    requires cfg.floor <= cfg.accessBoost && records != [] && DeletedFrom(exp, records[1..], cfg, now, e)
    ensures DeletedFrom(exp, records, cfg, now, e)
  {
    hide Strength;
    assert forall x <- records[1..] :: x in records;
  }

  lemma {:induction false} DeletionsExact(exp: real -> real, records: seq<Record>, cfg: DecayConfig, now: int)
    requires cfg.floor <= cfg.accessBoost
    ensures var log := Deletions(exp, records, cfg, now);
            && (forall e <- log :: e.action == Delete)
            && (forall id :: HasEntry(log, id, Delete) <==> HasRecord(records, id, Archived))
            && forall e <- log :: DeletedFrom(exp, records, cfg, now, e)
  {
    if records != [] {
      var r, rest := records[0], Deletions(exp, records[1..], cfg, now);
      var log := Deletions(exp, records, cfg, now);
      DeletionsExact(exp, records[1..], cfg, now);
      forall id ensures HasRecord(records, id, Archived)
        <==> HasRecord(records[1..], id, Archived) || (r.id == id && r.state == Archived)
      {
        assert forall x :: x in records <==> x == r || x in records[1..];
      }
      if r.state == Archived {
        assert log == [log[0]] + rest;
        assert forall e :: e in log <==> e == log[0] || e in rest;
      } else {
        assert log == rest;
      }
      forall e <- log ensures DeletedFrom(exp, records, cfg, now, e) {
        if e in rest {
          DeletedStill(exp, records, cfg, now, e);
        } else {
          assert r in records;
        }
      }
    }
  }

  lemma DeletedElsewhere(exp: real -> real, records: seq<Record>, cfg: DecayConfig, now: int, e: LogEntry)
    requires cfg.floor <= cfg.accessBoost && records != [] && DistinctRecords(records)
    requires DeletedFrom(exp, records[1..], cfg, now, e)
    ensures e.recordId != records[0].id
  {
    hide Strength;
    var r :| r in records[1..] && r.id == e.recordId;
    var k :| 0 <= k < |records[1..]| && records[1..][k] == r;
    assert r == records[k + 1];
  }

  lemma {:induction false} DeletionsOnce(exp: real -> real, records: seq<Record>, cfg: DecayConfig, now: int)
    requires cfg.floor <= cfg.accessBoost && DistinctRecords(records)
    ensures OnceEach(Deletions(exp, records, cfg, now))
  {
    if records != [] {
      var r, rest := records[0], Deletions(exp, records[1..], cfg, now);
      DeletionsOnce(exp, records[1..], cfg, now);
      DeletionsExact(exp, records[1..], cfg, now);
      forall j | 0 <= j < |rest| ensures rest[j].recordId != r.id {
        assert rest[j] in rest;
        DeletedElsewhere(exp, records, cfg, now, rest[j]);
      }
    }
  }

  lemma ArchivesActive(exp: real -> real, records: seq<Record>, policy: Policy, now: int)
    requires policy.cfg.floor <= policy.cfg.accessBoost && DistinctRecords(records)
    ensures var log := AfterAll(Score(exp, records, policy.cfg, now), policy, now).log;
            OnceEach(log) && forall e <- log :: e.action == Archive && HasRecord(records, e.recordId, Active)
  {
    var scored := Score(exp, records, policy.cfg, now);
    ScoreMembers(exp, records, policy.cfg, now);
    ScoreDistinct(exp, records, policy.cfg, now);
    AllOk(scored, policy, now);
    var log := AfterAll(scored, policy, now).log;
    forall e <- log ensures HasRecord(records, e.recordId, Active) {
      var s :| s in scored && e == EntryOf(s, e.reason);
      assert s.record in records;
    }
  }

  lemma ActiveIsNotArchived(records: seq<Record>, id: string)
    requires DistinctRecords(records) && HasRecord(records, id, Active)
    ensures !HasRecord(records, id, Archived)
  {
    if HasRecord(records, id, Archived) {
      var r :| r in records && r.id == id && r.state == Active;
      var x :| x in records && x.id == id && x.state == Archived;
      SameId(records, r, x);
    }
  }

  /**
   Every record is logged at most once; only active records are archived, only archived ones
   deleted, and a hard pass deletes exactly those.
   */
  lemma PassIsSound(exp: real -> real, records: seq<Record>, policy: Policy, now: int)
    requires policy.cfg.floor <= policy.cfg.accessBoost && DistinctRecords(records)
    ensures var log := EvictionLog(exp, records, policy, now);
            && OnceEach(log)
            && (forall e <- log | e.action == Archive :: HasRecord(records, e.recordId, Active))
            && forall id :: HasEntry(log, id, Delete) <==> policy.hard && HasRecord(records, id, Archived)
  {
    var deletions := if policy.hard then Deletions(exp, records, policy.cfg, now) else [];
    var rest := AfterAll(Score(exp, records, policy.cfg, now), policy, now).log;
    hide AfterAll, Deletions;
    ArchivesActive(exp, records, policy, now);
    DeletionsExact(exp, records, policy.cfg, now);
    DeletionsOnce(exp, records, policy.cfg, now);
    forall i, j | 0 <= i < |deletions| && 0 <= j < |rest| ensures deletions[i].recordId != rest[j].recordId {
      assert deletions[i] in deletions && rest[j] in rest;
      assert HasEntry(deletions, deletions[i].recordId, Delete);
      ActiveIsNotArchived(records, rest[j].recordId);
    }
    forall id ensures HasEntry(deletions + rest, id, Delete) <==> HasEntry(deletions, id, Delete) {
      assert forall e :: e in deletions + rest <==> e in deletions || e in rest;
    }
  }

  lemma SameId(records: seq<Record>, r: Record, x: Record)
    requires DistinctRecords(records) && r in records && x in records && r.id == x.id
    ensures r == x
  {
    var i :| 0 <= i < |records| && records[i] == r;
    var j :| 0 <= j < |records| && records[j] == x;
  }

  // ----- the cap

  /** The active records the pass leaves alone. */
  function Survivors(scored: seq<Scored>, archived: set<string>): set<string> {
    set s | s in scored && s.record.id !in archived :: s.record.id
  }

  lemma {:induction false} LeftIsSurvivors(scored: seq<Scored>, n: nat, archived: set<string>)
    requires n <= |scored| && DistinctIds(scored)
    ensures Left(scored, n, archived) == |Survivors(scored[..n], archived)|
  {
    if n > 0 {
      var s := scored[n - 1];
      LeftIsSurvivors(scored, n - 1, archived);
      NewId(scored, n - 1);
      hide Survivors, DistinctIds;
      Seqs.TakeStep(scored, n - 1);
      OneMoreSurvivor(scored[..n - 1], s, archived);
    } else {
      assert Survivors(scored[..0], archived) == {};
    }
  }

  lemma OneMoreSurvivor(scored: seq<Scored>, s: Scored, archived: set<string>)
    requires forall x <- scored :: x.record.id != s.record.id
    ensures |Survivors(scored + [s], archived)|
         == |Survivors(scored, archived)| + if s.record.id in archived then 0 else 1
  {
    var before := Survivors(scored, archived);
    if s.record.id in archived {
      assert Survivors(scored + [s], archived) == before;
    } else {
      assert Survivors(scored + [s], archived) == before + {s.record.id};
      assert s.record.id !in before;
    }
  }

  lemma NewId(scored: seq<Scored>, n: nat)
    requires DistinctIds(scored) && n < |scored|
    ensures forall x <- scored[..n] :: x.record.id != scored[n].record.id
  {
  }

  lemma AllSurvivors(scored: seq<Scored>, archived: set<string>)
    requires DistinctIds(scored)
    ensures Left(scored, |scored|, archived) == |Survivors(scored, archived)|
  {
    LeftIsSurvivors(scored, |scored|, archived);
    Seqs.TakeDrop(scored, |scored|);
    assert scored[..|scored|] == scored;
  }

  /**
   With a cap, exactly what the other rules leave beyond it is archived, the weakest first:
   no survivor is weaker than a record the cap rule took.
   */
  lemma CapIsKept(scored: seq<Scored>, policy: Policy, now: int)
    requires DistinctIds(scored) && policy.maxKeep.Some?
    ensures var rules, all := AfterRules(scored, policy, now), AfterAll(scored, policy, now);
            var left, kept := Survivors(scored, rules.archived), Survivors(scored, all.archived);
            && |kept| == (if |left| < policy.maxKeep.value then |left| else policy.maxKeep.value)
            && kept <= left
            && |all.log| - |rules.log| == |left| - |kept|
            && (forall e <- all.log :: e in rules.log || e.reason == OverCap)
            && forall s <- scored, t <- scored |
                 s.record.id in left && s.record.id !in kept && t.record.id in kept :: s.strength <= t.strength
  {
    var sorted := Sorting.Sort(scored, Weaker);
    var rules, all := AfterRules(scored, policy, now), AfterAll(scored, policy, now);
    var quota := Excess(sorted, rules, policy.maxKeep.value);
    SortedDistinct(scored);
    CapTakes(sorted, |sorted|, rules, quota);
    AllSurvivors(sorted, rules.archived);
    AllSurvivors(sorted, all.archived);
    assert Survivors(sorted, rules.archived) == Survivors(scored, rules.archived);
    assert Survivors(sorted, all.archived) == Survivors(scored, all.archived);
    forall s <- scored, t <- scored |
      s.record.id in Survivors(scored, rules.archived) && s.record.id !in Survivors(scored, all.archived)
      && t.record.id in Survivors(scored, all.archived)
      ensures s.strength <= t.strength
    {
      var i :| 0 <= i < |sorted| && sorted[i] == s;
      var j :| 0 <= j < |sorted| && sorted[j] == t;
      CapTakesFront(sorted, |sorted|, rules, quota, i, j);
    }
  }

  /** Without a cap, the weakest half goes: nobody spared is weaker than somebody taken. */
  lemma WeakestHalfGoes(scored: seq<Scored>, policy: Policy, now: int)
    requires DistinctIds(scored) && policy.lru && policy.maxKeep.None?
    ensures var sorted := Sorting.Sort(scored, Weaker);
            var rules, all := AfterRules(scored, policy, now), AfterAll(scored, policy, now);
            && |sorted| == |scored|
            && (forall k: nat | k < |sorted| :: sorted[k].record.id in all.archived
                  <==> || k < (if |scored| <= 1 then |scored| else |scored| / 2)
                       || sorted[k].record.id in rules.archived)
            && forall s <- scored, t <- scored |
                 s.record.id in all.archived && s.record.id !in rules.archived && t.record.id !in all.archived ::
                 s.strength <= t.strength
  {
    var sorted, rules := Sorting.Sort(scored, Weaker), AfterRules(scored, policy, now);
    var all := AfterAll(scored, policy, now);
    SortedDistinct(scored);
    HalfArchives(sorted, HalfOf(|sorted|), rules);
    hide Sweep, AfterRules;
    HalfTaken(sorted, HalfOf(|scored|), rules, all);
    forall s <- scored, t <- scored |
      s.record.id in all.archived && s.record.id !in rules.archived && t.record.id !in all.archived
      ensures s.strength <= t.strength
    {
      var i: nat :| i < |sorted| && sorted[i] == s;
      var j: nat :| j < |sorted| && sorted[j] == t;
      assert sorted[i].record.id in all.archived && sorted[j].record.id !in all.archived;
    }
  }

  lemma HalfArchives(sorted: seq<Scored>, half: nat, rules: Pass)
    requires DistinctIds(sorted) && half <= |sorted|
    ensures var all := Sweep(sorted, half, rules, Anyone(), Lru);
            forall id :: id in all.archived <==>
              id in rules.archived || exists i: nat :: i < half && id == sorted[i].record.id
  {
    hide Sweep, DistinctIds;
    SweepLogs(sorted, half, rules, Anyone(), Lru);
    forall i: nat | i < half ensures Anyone()(sorted[i]) {
      assert 0 <= i < |sorted|;
    }
  }

  lemma HalfTaken(sorted: seq<Scored>, half: nat, rules: Pass, all: Pass)
    requires DistinctIds(sorted) && half <= |sorted|
    requires forall id :: id in all.archived <==>
      id in rules.archived || exists i: nat :: i < half && id == sorted[i].record.id
    ensures forall k: nat | k < |sorted| ::
      (sorted[k].record.id in all.archived <==> k < half || sorted[k].record.id in rules.archived)
  {
  }

  // ----- the age rule

  /** A record is logged as too old exactly when the rule is on, it is old, and use does not protect it. */
  lemma TtlIsExact(scored: seq<Scored>, policy: Policy, now: int, s: Scored)
    requires DistinctIds(scored) && s in scored
    ensures EntryOf(s, Ttl) in AfterAll(scored, policy, now).log
       <==> policy.ttlDays.Some? && TtlHits(s, policy.ttlDays.value, now)
    ensures var usage := s.record.usage;
            var since := if usage.lastAccess.Some? then usage.lastAccess.value else s.record.createdAt;
            policy.ttlDays.Some? ==>
              (TtlHits(s, policy.ttlDays.value, now)
               <==> && (if now > since then now - since else 0) as real / 86400.0 > policy.ttlDays.value
                    && (usage.usefulCount == 0 || s.strength < 1.0))
  {
    var n, start := |scored|, Pass({}, []);
    var aged := start;
    var i :| 0 <= i < n && scored[i] == s;
    if policy.ttlDays.Some? {
      var hits := s => TtlHits(s, policy.ttlDays.value, now);
      aged := Sweep(scored, n, start, hits, Ttl);
      SweepLogs(scored, n, start, hits, Ttl);
      if TtlHits(s, policy.ttlDays.value, now) {
        assert hits(scored[i]);
      }
    }
    assert EntryOf(s, Ttl) in aged.log <==> policy.ttlDays.Some? && TtlHits(s, policy.ttlDays.value, now);
    if policy.minStrength.Some? {
      SweepLogs(scored, n, aged, (s: Scored) => Weak(s, policy.minStrength.value), TooWeak);
    }
    var rules := AfterRules(scored, policy, now);
    assert EntryOf(s, Ttl) in rules.log <==> EntryOf(s, Ttl) in aged.log;
    LaterRules(scored, policy, now, EntryOf(s, Ttl));
  }

  /** The rules that look at the order add entries of their own kind only. */
  // ----- the strength rule, and who is left

  /** The later rules log nothing for weakness. */
  lemma LaterRulesNotWeak(scored: seq<Scored>, policy: Policy, now: int, e: LogEntry)
    requires DistinctIds(scored) && e.reason == TooWeak
    ensures e in AfterAll(scored, policy, now).log <==> e in AfterRules(scored, policy, now).log
  {
    var p, sorted := AfterRules(scored, policy, now), Sorting.Sort(scored, Weaker);
    SortedDistinct(scored);
    if policy.maxKeep.Some? {
      CapTakes(sorted, |sorted|, p, Excess(sorted, p, policy.maxKeep.value));
      CapKeepsLog(sorted, |sorted|, p, Excess(sorted, p, policy.maxKeep.value));
    } else if policy.lru {
      SweepLogs(sorted, HalfOf(|sorted|), p, Anyone(), Lru);
    }
  }

  /** After the age rule, exactly the records it hits are archived. */
  lemma AgeRuleTakes(scored: seq<Scored>, policy: Policy, now: int, s: Scored)
    requires DistinctIds(scored) && s in scored
    ensures s.record.id in Aged(scored, policy, now).archived
       <==> policy.ttlDays.Some? && TtlHits(s, policy.ttlDays.value, now)
    ensures forall e <- Aged(scored, policy, now).log :: e.reason == Ttl
  {
    var i: nat :| i < |scored| && scored[i] == s;
    if policy.ttlDays.Some? {
      var start, hits := Pass({}, []), s => TtlHits(s, policy.ttlDays.value, now);
      RuleTakes(scored, start, hits, Ttl, i);
      SweepLogs(scored, |scored|, start, hits, Ttl);
      assert Aged(scored, policy, now) == Sweep(scored, |scored|, start, hits, Ttl);
    }
  }

  /** One rule archives, and logs, a record if it hits it and nothing has archived it before. */
  lemma RuleTakes(scored: seq<Scored>, p: Pass, hits: Scored -> bool, reason: Reason, i: nat)
    requires DistinctIds(scored) && i < |scored|
    ensures var r, s := Sweep(scored, |scored|, p, hits, reason), scored[i];
            && (s.record.id in r.archived <==> s.record.id in p.archived || hits(s))
            && (EntryOf(s, reason) in r.log
                <==> EntryOf(s, reason) in p.log || (hits(s) && s.record.id !in p.archived))
  {
    SweepLogs(scored, |scored|, p, hits, reason);
    hide Sweep;
    SameScored(scored, i);
  }

  lemma SameScored(scored: seq<Scored>, i: nat)
    requires DistinctIds(scored) && i < |scored|
    ensures forall k: nat | k < |scored| && scored[k].record.id == scored[i].record.id :: k == i
  {
  }

  /**
   A record is logged as too weak exactly when the rule is on, its strength is below the
   threshold, and the age rule did not take it; and the rules that look at one record at a
   time spare exactly the records that are neither too old nor too weak.
   */
  lemma WeakIsExact(scored: seq<Scored>, policy: Policy, now: int, s: Scored)
    requires DistinctIds(scored) && s in scored
    ensures EntryOf(s, TooWeak) in AfterAll(scored, policy, now).log
       <==> && policy.minStrength.Some? && s.strength < policy.minStrength.value
            && !(policy.ttlDays.Some? && TtlHits(s, policy.ttlDays.value, now))
    ensures s.record.id in AfterRules(scored, policy, now).archived
       <==> || (policy.ttlDays.Some? && TtlHits(s, policy.ttlDays.value, now))
            || (policy.minStrength.Some? && s.strength < policy.minStrength.value)
  {
    var i: nat :| i < |scored| && scored[i] == s;
    var aged := Aged(scored, policy, now);
    AgeRuleTakes(scored, policy, now, s);
    LaterRulesNotWeak(scored, policy, now, EntryOf(s, TooWeak));
    if policy.minStrength.Some? {
      WeakRule(scored, aged, policy.minStrength.value, i);
    }
  }

  lemma WeakRule(scored: seq<Scored>, p: Pass, minStrength: real, i: nat)
    requires DistinctIds(scored) && i < |scored| && forall e <- p.log :: e.reason == Ttl
    ensures var r, s := Sweep(scored, |scored|, p, (s: Scored) => Weak(s, minStrength), TooWeak), scored[i];
            && (EntryOf(s, TooWeak) in r.log <==> Weak(s, minStrength) && s.record.id !in p.archived)
            && (s.record.id in r.archived <==> s.record.id in p.archived || Weak(s, minStrength))
  {
    RuleTakes(scored, p, (s: Scored) => Weak(s, minStrength), TooWeak, i);
  }

  /** Nobody who survives a pass is too old or too weak for its policy. */
  lemma SurvivorsMeetRules(scored: seq<Scored>, policy: Policy, now: int, s: Scored)
    requires DistinctIds(scored) && s in scored && s.record.id !in AfterAll(scored, policy, now).archived
    ensures policy.ttlDays.Some? ==> !TtlHits(s, policy.ttlDays.value, now)
    ensures policy.minStrength.Some? ==> s.strength >= policy.minStrength.value
  {
    WeakIsExact(scored, policy, now, s);
    RulesStay(scored, policy, now);
  }

  lemma RulesStay(scored: seq<Scored>, policy: Policy, now: int)
    requires DistinctIds(scored)
    ensures AfterRules(scored, policy, now).archived <= AfterAll(scored, policy, now).archived
  {
    var p, sorted := AfterRules(scored, policy, now), Sorting.Sort(scored, Weaker);
    SortedDistinct(scored);
    if policy.maxKeep.Some? {
      CapTakes(sorted, |sorted|, p, Excess(sorted, p, policy.maxKeep.value));
    } else if policy.lru {
      SweepLogs(sorted, HalfOf(|sorted|), p, Anyone(), Lru);
    }
  }

  /** Without a cap or the half rule, the survivors are exactly those the two rules spare. */
  lemma SparedIff(scored: seq<Scored>, policy: Policy, now: int, s: Scored)
    requires DistinctIds(scored) && s in scored && policy.maxKeep.None? && !policy.lru
    ensures s.record.id !in AfterAll(scored, policy, now).archived
       <==> && (policy.ttlDays.Some? ==> !TtlHits(s, policy.ttlDays.value, now))
            && (policy.minStrength.Some? ==> s.strength >= policy.minStrength.value)
  {
    WeakIsExact(scored, policy, now, s);
  }

  lemma LaterRules(scored: seq<Scored>, policy: Policy, now: int, e: LogEntry)
    requires DistinctIds(scored) && e.reason == Ttl
    ensures e in AfterAll(scored, policy, now).log <==> e in AfterRules(scored, policy, now).log
  {
    var p, sorted := AfterRules(scored, policy, now), Sorting.Sort(scored, Weaker);
    SortedDistinct(scored);
    if policy.maxKeep.Some? {
      CapTakes(sorted, |sorted|, p, Excess(sorted, p, policy.maxKeep.value));
      CapKeepsLog(sorted, |sorted|, p, Excess(sorted, p, policy.maxKeep.value));
    } else if policy.lru {
      SweepLogs(sorted, HalfOf(|sorted|), p, Anyone(), Lru);
    }
  }

  lemma {:induction false} CapKeepsLog(scored: seq<Scored>, n: nat, p: Pass, quota: nat)
    requires n <= |scored|
    ensures forall e <- p.log :: e in Cap(scored, n, p, quota).0.log
  {
    if n > 0 { CapKeepsLog(scored, n - 1, p, quota); }
  }

  /** With enough use, the default age rule leaves a record alone. */
  lemma UsefulNeverTooOld(exp: real -> real, records: seq<Record>, policy: Policy, now: int, s: Scored)
    requires IsExp(exp) && policy.cfg == DEFAULT_CONFIG && DistinctRecords(records)
    requires s in Score(exp, records, policy.cfg, now) && ProtectedForEver(s.record)
    ensures EntryOf(s, Ttl) !in AfterAll(Score(exp, records, policy.cfg, now), policy, now).log
  {
    ScoreMembers(exp, records, policy.cfg, now);
    ScoreDistinct(exp, records, policy.cfg, now);
    DefaultStrengthAtLeast(exp, s.record.usage, now);
    TtlIsExact(Score(exp, records, policy.cfg, now), policy, now, s);
  }

  /** Confirmed useful at least once, and never accessed at a known time or used enough. */
  predicate ProtectedForEver(r: Record) {
    && r.usage.usefulCount > 0
    && (r.usage.lastAccess.None? || EnoughUse(r.usage.accessCount, r.usage.usefulCount))
  }

  /** The age rule never hits the record, however long one waits. */
  ghost predicate NeverTooOld(exp: real -> real, r: Record, ttlDays: real) {
    forall now :: !TtlHits(ScoreOf(exp, r, now), ttlDays, now)
  }

  function ScoreOf(exp: real -> real, r: Record, now: int): Scored {
    Scored(r, Strength(exp, r.usage, DEFAULT_CONFIG, now))
  }

  /** Under the default configuration that is so, for any limit, exactly for those records. */
  lemma NeverTooOldIff(exp: real -> real, r: Record, ttlDays: real)
    requires IsExp(exp) && ReachesFloor(exp, DEFAULT_CONFIG)
    ensures NeverTooOld(exp, r, ttlDays) <==> ProtectedForEver(r)
  {
    if ProtectedForEver(r) {
      forall now ensures !TtlHits(ScoreOf(exp, r, now), ttlDays, now) {
        DefaultStrengthAtLeast(exp, r.usage, now);
      }
    } else {
      var since := if r.usage.lastAccess.Some? then r.usage.lastAccess.value else r.createdAt;
      var seconds: nat :| Fading(exp, DEFAULT_CONFIG, seconds) <= DEFAULT_CONFIG.floor;
      var age := OlderThan(ttlDays, seconds);
      var now := since + age;
      assert now - since == age;
      FadesOn(exp, DEFAULT_CONFIG, seconds, age);
      if r.usage.lastAccess.Some? && !EnoughUse(r.usage.accessCount, r.usage.usefulCount) {
        DefaultWeakness(exp, r.usage, now);
      }
      assert TtlHits(ScoreOf(exp, r, now), ttlDays, now);
    }
  }

  lemma OlderThan(days: real, seconds: nat) returns (age: nat)
    ensures age >= seconds && Days(age) > days
  {
    var least := (days * 86400.0).Floor + 1;
    age := if least < seconds then seconds else least;
    assert age as real > days * 86400.0;
  }
}
