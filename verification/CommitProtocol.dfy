/**
 Optimistic concurrency: a shared sequence number advanced by compare-and-swap, and writers
 that retry on conflict. First the code of one writer, then all interleavings of many.
 */
module CommitProtocol {

  /** Sequence numbers are 64-bit and wrap. */
  const LIMIT: nat := 0x1_0000_0000_0000_0000

  function Successor(number: nat): nat { (number + 1) % LIMIT }

  datatype CommitResult = Ok(number: nat) | Conflict(expected: nat, actual: nat)

  class CommitLog {
    var current: nat

    ghost predicate Valid() reads this { current < LIMIT }

    constructor ()
      ensures Valid() && current == 0
    {
      current := 0;
    }

    method CurrentSeq() returns (number: nat)
      ensures number == current
    {
      number := current;
    }

    /** `try_commit`: one atomic compare-exchange. */
    method TryCommit(expected: nat) returns (result: CommitResult)
      requires Valid()
      modifies this
      ensures Valid()
      ensures old(current) == expected ==> current == Successor(expected) && result == Ok(current)
      ensures old(current) == expected < 0xFFFF_FFFF_FFFF_FFFF ==> current == expected + 1
      ensures old(current) == expected == 0xFFFF_FFFF_FFFF_FFFF ==> current == 0
      ensures old(current) != expected ==>
        current == old(current) && result == Conflict(expected, current)
    {
      if current == expected {
        current := Successor(expected);
        result := Ok(current);
      } else {
        result := Conflict(expected, current);
      }
    }

    /** Commits by other writers while this one is suspended. */
    method Interfere(commits: nat)
      requires Valid() && current + commits < LIMIT
      modifies this
      ensures Valid() && current == old(current) + commits
    {
      current := current + commits;
    }

    /**
     `commit_with_retry` of one writer; `others[k]` commits of other writers fall between its
     k-th snapshot and its k-th compare-and-swap. It wins in the first quiet attempt, if that
     comes within `maxRetries` retries.
     */
    method CommitWithRetry(maxRetries: nat, others: seq<nat>) returns (result: CommitResult, attempts: nat)
      requires Valid() && |others| == maxRetries + 1
      requires current + Total(others) + 1 < LIMIT
      modifies this
      ensures attempts <= maxRetries
      ensures forall k | 0 <= k < attempts :: others[k] > 0
      ensures others[attempts] == 0 ==>
        result == Ok(current) && current == old(current) + Total(others[..attempts]) + 1
      ensures others[attempts] > 0 ==>
        && attempts == maxRetries && result.Conflict?
        && current == old(current) + Total(others)
    {
      attempts := 0;
      while true
        invariant Valid() && attempts <= maxRetries
        invariant forall k | 0 <= k < attempts :: others[k] > 0
        invariant current == old(current) + Total(others[..attempts])
        decreases maxRetries - attempts
      {
        TotalStep(others, attempts);
        TotalPrefix(others, attempts + 1);
        var snapshot := CurrentSeq();
        Interfere(others[attempts]);
        result := TryCommit(snapshot);
        if result.Ok? {
          return;
        }
        if attempts < maxRetries {
          attempts := attempts + 1;
        } else {
          assert others[..attempts + 1] == others;
          return;
        }
      }
    }
  }

  function Total(s: seq<nat>): nat {
    if s == [] then 0 else Total(s[..|s| - 1]) + s[|s| - 1]
  }

  lemma TotalStep(s: seq<nat>, k: nat)
    requires k < |s|
    ensures Total(s[..k + 1]) == Total(s[..k]) + s[k]
  {
    assert s[..k + 1][..k] == s[..k];
  }

  lemma {:induction false} TotalPrefix(s: seq<nat>, k: nat)
    requires k <= |s|
    ensures Total(s[..k]) <= Total(s)
    decreases |s| - k
  {
    if k == |s| {
      assert s[..k] == s;
    } else {
      TotalStep(s, k);
      TotalPrefix(s, k + 1);
    }
  }

  // ----- all interleavings

  /** What a call returns; a storage error comes after the sequence number was won. */
  datatype Outcome = Committed | StorageError | GaveUp

  datatype Writer =
    | Beginning(attempts: nat)
    | Holding(attempts: nat, snapshot: nat)
    | Storing(won: nat)
    | Done(outcome: Outcome, number: nat)

  /** The atomic steps of a writer: read the sequence, swap it, finish the store. */
  datatype Step = Snapshot(i: nat) | Swap(i: nat) | Store(i: nat, ok: bool)

  datatype State = State(current: nat, writers: seq<Writer>)

  predicate Enabled(s: State, step: Step) {
    && step.i < |s.writers|
    && match step
       case Snapshot(i) => s.writers[i].Beginning?
       case Swap(i) => s.writers[i].Holding?
       case Store(i, _) => s.writers[i].Storing?
  }

  function Next(s: State, step: Step, maxRetries: nat): State
    requires Enabled(s, step)
  {
    var w := s.writers[step.i];
    match step
    case Snapshot(i) =>
      s.(writers := s.writers[i := Holding(w.attempts, s.current)])
    case Swap(i) =>
      if w.snapshot == s.current then
        State(Successor(s.current), s.writers[i := Storing(Successor(s.current))])
      else if w.attempts < maxRetries then
        s.(writers := s.writers[i := Beginning(w.attempts + 1)])
      else
        s.(writers := s.writers[i := Done(GaveUp, 0)])
    case Store(i, ok) =>
      s.(writers := s.writers[i := Done(if ok then Committed else StorageError, w.won)])
  }

  /** The state after a schedule; a step that is not possible is skipped. */
  function Run(s: State, schedule: seq<Step>, maxRetries: nat): State
    decreases |schedule|
  {
    if schedule == [] then s
    else
      var before := Run(s, schedule[..|schedule| - 1], maxRetries);
      var step := schedule[|schedule| - 1];
      if Enabled(before, step) then Next(before, step, maxRetries) else before
  }

  function Start(initial: nat, n: nat): State {
    State(initial, seq(n, _ => Beginning(0)))
  }

  predicate HasWon(w: Writer) {
    w.Storing? || (w.Done? && w.outcome != GaveUp)
  }

  function Number(w: Writer): nat
    requires HasWon(w)
  {
    if w.Storing? then w.won else w.number
  }

  function Wins(writers: seq<Writer>): nat {
    if writers == [] then 0
    else Wins(writers[..|writers| - 1]) + if HasWon(writers[|writers| - 1]) then 1 else 0
  }

  lemma {:induction false} WinsUpdate(writers: seq<Writer>, i: nat, w: Writer)
    requires i < |writers|
    ensures Wins(writers[i := w])
         == Wins(writers) - (if HasWon(writers[i]) then 1 else 0) + (if HasWon(w) then 1 else 0)
  {
    var k := |writers| - 1;
    if i == k {
      assert writers[i := w][..k] == writers[..k];
    } else {
      assert writers[i := w][..k] == writers[..k][i := w];
      WinsUpdate(writers[..k], i, w);
    }
  }

  /** As long as somebody has not won, fewer than all have. */
  lemma {:induction false} WinsBound(writers: seq<Writer>)
    ensures Wins(writers) <= |writers|
    ensures (exists i | 0 <= i < |writers| :: !HasWon(writers[i])) ==> Wins(writers) < |writers|
    ensures (forall i | 0 <= i < |writers| :: HasWon(writers[i])) ==> Wins(writers) == |writers|
  {
    if writers != [] {
      var k := |writers| - 1;
      WinsBound(writers[..k]);
      assert forall i | 0 <= i < k :: writers[..k][i] == writers[i];
    }
  }

  // ----- what every reachable state satisfies

  ghost predicate WriterOk(s: State, w: Writer, initial: nat, maxRetries: nat) {
    match w
    case Beginning(attempts) => attempts <= maxRetries && initial + attempts <= s.current
    case Holding(attempts, snapshot) => attempts <= maxRetries && initial + attempts <= snapshot <= s.current
    case Storing(won) => initial < won <= s.current
    case Done(outcome, number) => outcome == GaveUp || initial < number <= s.current
  }

  ghost predicate WonBy(s: State, number: nat) {
    exists i | 0 <= i < |s.writers| :: HasWon(s.writers[i]) && Number(s.writers[i]) == number
  }

  ghost predicate Inv(s: State, initial: nat, n: nat, maxRetries: nat) {
    && |s.writers| == n
    && s.current == initial + Wins(s.writers)
    && (forall i | 0 <= i < n :: WriterOk(s, s.writers[i], initial, maxRetries))
    && (forall i, j | 0 <= i < j < n && HasWon(s.writers[i]) && HasWon(s.writers[j]) ::
          Number(s.writers[i]) != Number(s.writers[j]))
    && (forall number: nat | initial < number <= s.current :: WonBy(s, number))
    && (n <= maxRetries + 1 ==> forall i | 0 <= i < n :: !GivenUp(s.writers[i]))
  }

  predicate GivenUp(w: Writer) { w.Done? && w.outcome == GaveUp }

  lemma StartInv(initial: nat, n: nat, maxRetries: nat)
    ensures Inv(Start(initial, n), initial, n, maxRetries)
  {
    NobodyWon(n);
  }

  lemma {:induction false} NobodyWon(n: nat)
    ensures Wins(seq(n, _ => Beginning(0))) == 0
  {
    var writers: seq<Writer> := seq(n, _ => Beginning(0));
    if n > 0 {
      NobodyWon(n - 1);
      assert writers[..n - 1] == seq(n - 1, _ => Beginning(0));
    }
  }

  lemma StepInv(s: State, step: Step, initial: nat, n: nat, maxRetries: nat)
    requires initial + n < LIMIT
    requires Inv(s, initial, n, maxRetries) && Enabled(s, step)
    ensures Inv(Next(s, step, maxRetries), initial, n, maxRetries)
  {
    StepCounts(s, step, initial, n, maxRetries);
    StepWriters(s, step, initial, n, maxRetries);
    StepNumbers(s, step, initial, n, maxRetries);
  }

  /** The sequence moves with the number of winners, by one at most, and does not wrap. */
  lemma StepCounts(s: State, step: Step, initial: nat, n: nat, maxRetries: nat)
    requires initial + n < LIMIT
    requires Inv(s, initial, n, maxRetries) && Enabled(s, step)
    ensures var s2 := Next(s, step, maxRetries);
            && |s2.writers| == n && s2.current == initial + Wins(s2.writers)
            && s2.current == if step.Swap? && s.writers[step.i].snapshot == s.current then s.current + 1 else s.current
  {
    WinsUpdate(s.writers, step.i, Next(s, step, maxRetries).writers[step.i]);
    WinsBound(s.writers);
  }

  lemma StepWriters(s: State, step: Step, initial: nat, n: nat, maxRetries: nat)
    requires initial + n < LIMIT
    requires Inv(s, initial, n, maxRetries) && Enabled(s, step)
    ensures var s2 := Next(s, step, maxRetries);
            && |s2.writers| == n
            && (forall i | 0 <= i < n :: WriterOk(s2, s2.writers[i], initial, maxRetries))
            && (n <= maxRetries + 1 ==> forall i | 0 <= i < n :: !GivenUp(s2.writers[i]))
  {
    StepCounts(s, step, initial, n, maxRetries);
    WinsBound(s.writers);
    var s2 := Next(s, step, maxRetries);
    assert WriterOk(s, s.writers[step.i], initial, maxRetries);
    forall i | 0 <= i < n ensures WriterOk(s2, s2.writers[i], initial, maxRetries) {
      assert WriterOk(s, s.writers[i], initial, maxRetries);
    }
  }

  lemma StepNumbers(s: State, step: Step, initial: nat, n: nat, maxRetries: nat)
    requires initial + n < LIMIT
    requires Inv(s, initial, n, maxRetries) && Enabled(s, step)
    ensures var s2 := Next(s, step, maxRetries);
            && |s2.writers| == n
            && (forall i, j | 0 <= i < j < n && HasWon(s2.writers[i]) && HasWon(s2.writers[j]) ::
                  Number(s2.writers[i]) != Number(s2.writers[j]))
            && (forall number: nat | initial < number <= s2.current :: WonBy(s2, number))
  {
    StepCounts(s, step, initial, n, maxRetries);
    var s2 := Next(s, step, maxRetries);
    forall i | 0 <= i < n ensures HasWon(s.writers[i]) ==>
      HasWon(s2.writers[i]) && Number(s2.writers[i]) == Number(s.writers[i]) <= s.current
    {
      assert WriterOk(s, s.writers[i], initial, maxRetries);
    }
    forall number: nat | initial < number <= s2.current ensures WonBy(s2, number) {
      if number <= s.current {
        assert WonBy(s, number);
        var j :| 0 <= j < |s.writers| && HasWon(s.writers[j]) && Number(s.writers[j]) == number;
        assert HasWon(s2.writers[j]) && Number(s2.writers[j]) == number;
      } else {
        assert HasWon(s2.writers[step.i]) && Number(s2.writers[step.i]) == number;
      }
    }
  }

  lemma {:induction false} RunInv(initial: nat, n: nat, maxRetries: nat, schedule: seq<Step>)
    requires initial + n < LIMIT
    ensures Inv(Run(Start(initial, n), schedule, maxRetries), initial, n, maxRetries)
    decreases |schedule|
  {
    if schedule == [] {
      StartInv(initial, n, maxRetries);
    } else {
      var init, step := schedule[..|schedule| - 1], schedule[|schedule| - 1];
      RunInv(initial, n, maxRetries, init);
      var before := Run(Start(initial, n), init, maxRetries);
      if Enabled(before, step) {
        StepInv(before, step, initial, n, maxRetries);
      }
    }
  }

  predicate AllDone(s: State) {
    forall i | 0 <= i < |s.writers| :: s.writers[i].Done?
  }

  /**
   With enough retries, no interleaving makes a writer give up; when all are done the
   sequence has advanced by exactly their number, and each number is won exactly once.
   */
  lemma RetriesSuffice(initial: nat, n: nat, maxRetries: nat, schedule: seq<Step>)
    requires initial + n < LIMIT && n <= maxRetries + 1
    ensures var s := Run(Start(initial, n), schedule, maxRetries);
            && |s.writers| == n
            && (forall i | 0 <= i < n :: !GivenUp(s.writers[i]))
            && (AllDone(s) ==> s.current == initial + n)
            && (forall number: nat :: WonBy(s, number) <==> initial < number <= s.current)
            && (forall i, j | 0 <= i < j < n && HasWon(s.writers[i]) && HasWon(s.writers[j]) ::
                  Number(s.writers[i]) != Number(s.writers[j]))
  {
    RunInv(initial, n, maxRetries, schedule);
    var s := Run(Start(initial, n), schedule, maxRetries);
    if AllDone(s) {
      forall i | 0 <= i < n ensures HasWon(s.writers[i]) {
        assert !GivenUp(s.writers[i]);
      }
      WinsBound(s.writers);
    }
    forall number: nat ensures WonBy(s, number) <==> initial < number <= s.current {
      if WonBy(s, number) {
        var i :| 0 <= i < n && HasWon(s.writers[i]) && Number(s.writers[i]) == number;
        assert WriterOk(s, s.writers[i], initial, maxRetries);
      }
    }
  }

  // ----- fewer retries do not suffice

  /** Writer 0 is overtaken by writers 1, 2, ... between its snapshot and its swap, each time. */
  function Overtakes(rounds: nat): seq<Step> {
    if rounds == 0 then []
    else Overtakes(rounds - 1) + [Snapshot(0)] + [Snapshot(rounds)] + [Swap(rounds)] + [Swap(0)]
  }

  lemma RunSnoc(s: State, schedule: seq<Step>, step: Step, maxRetries: nat)
    ensures Run(s, schedule + [step], maxRetries)
         == var before := Run(s, schedule, maxRetries);
            if Enabled(before, step) then Next(before, step, maxRetries) else before
  {
    assert (schedule + [step])[..|schedule|] == schedule;
  }

  ghost predicate Overtaken(s: State, initial: nat, n: nat, rounds: nat, maxRetries: nat) {
    && s.current == initial + rounds && |s.writers| == n > 0
    && (forall i | rounds < i < n :: s.writers[i] == Beginning(0))
    && s.writers[0] == if rounds <= maxRetries then Beginning(rounds) else Done(GaveUp, 0)
  }

  lemma {:induction false} OvertakesRun(initial: nat, n: nat, rounds: nat, maxRetries: nat)
    requires initial + n < LIMIT && rounds < n && rounds <= maxRetries + 1
    ensures Overtaken(Run(Start(initial, n), Overtakes(rounds), maxRetries), initial, n, rounds, maxRetries)
  {
    if rounds > 0 {
      var start, prefix := Start(initial, n), Overtakes(rounds - 1);
      OvertakesRun(initial, n, rounds - 1, maxRetries);
      RunSnoc(start, prefix, Snapshot(0), maxRetries);
      RunSnoc(start, prefix + [Snapshot(0)], Snapshot(rounds), maxRetries);
      RunSnoc(start, prefix + [Snapshot(0)] + [Snapshot(rounds)], Swap(rounds), maxRetries);
      RunSnoc(start, prefix + [Snapshot(0)] + [Snapshot(rounds)] + [Swap(rounds)], Swap(0), maxRetries);
      OneRound(Run(start, prefix, maxRetries), initial, n, rounds, maxRetries);
    }
  }

  lemma OneRound(s: State, initial: nat, n: nat, rounds: nat, maxRetries: nat)
    requires initial + n < LIMIT && 0 < rounds < n && rounds <= maxRetries + 1
    requires Overtaken(s, initial, n, rounds - 1, maxRetries)
    ensures Enabled(s, Snapshot(0))
    ensures var s1 := Next(s, Snapshot(0), maxRetries);
            && Enabled(s1, Snapshot(rounds))
            && var s2 := Next(s1, Snapshot(rounds), maxRetries);
               && Enabled(s2, Swap(rounds))
               && var s3 := Next(s2, Swap(rounds), maxRetries);
                  && Enabled(s3, Swap(0))
                  && Overtaken(Next(s3, Swap(0), maxRetries), initial, n, rounds, maxRetries)
  {
  }

  ghost predicate NeverGivesUp(initial: nat, n: nat, maxRetries: nat) {
    forall schedule :: NobodyGivesUp(Run(Start(initial, n), schedule, maxRetries))
  }

  predicate NobodyGivesUp(s: State) {
    forall i | 0 <= i < |s.writers| :: !GivenUp(s.writers[i])
  }

  /** `n` concurrent writers always all succeed if and only if each may retry `n - 1` times. */
  lemma RetryBoundIsExact(initial: nat, n: nat, maxRetries: nat)
    requires initial + n < LIMIT
    ensures NeverGivesUp(initial, n, maxRetries) <==> n <= maxRetries + 1
  {
    if n <= maxRetries + 1 {
      forall schedule ensures NobodyGivesUp(Run(Start(initial, n), schedule, maxRetries)) {
        RunInv(initial, n, maxRetries, schedule);
      }
    } else {
      OvertakesRun(initial, n, maxRetries + 1, maxRetries);
      var s := Run(Start(initial, n), Overtakes(maxRetries + 1), maxRetries);
      assert GivenUp(s.writers[0]);
      assert !NobodyGivesUp(s);
    }
  }

  // ----- every schedule ends

  function Work(w: Writer, maxRetries: nat): nat {
    match w
    case Beginning(attempts) => if attempts <= maxRetries then 3 + 2 * (maxRetries - attempts) else 0
    case Holding(attempts, _) => if attempts <= maxRetries then 2 + 2 * (maxRetries - attempts) else 0
    case Storing(_) => 1
    case Done(_, _) => 0
  }

  function TotalWork(writers: seq<Writer>, maxRetries: nat): nat {
    if writers == [] then 0
    else TotalWork(writers[..|writers| - 1], maxRetries) + Work(writers[|writers| - 1], maxRetries)
  }

  lemma {:induction false} WorkUpdate(writers: seq<Writer>, i: nat, w: Writer, maxRetries: nat)
    requires i < |writers|
    ensures TotalWork(writers[i := w], maxRetries)
         == TotalWork(writers, maxRetries) - Work(writers[i], maxRetries) + Work(w, maxRetries)
  {
    var k := |writers| - 1;
    if i == k {
      assert writers[i := w][..k] == writers[..k];
    } else {
      assert writers[i := w][..k] == writers[..k][i := w];
      WorkUpdate(writers[..k], i, w, maxRetries);
    }
  }

  lemma {:induction false} StartWork(n: nat, maxRetries: nat)
    ensures TotalWork(seq(n, _ => Beginning(0)), maxRetries) == n * (3 + 2 * maxRetries)
  {
    var writers: seq<Writer> := seq(n, _ => Beginning(0));
    if n > 0 {
      StartWork(n - 1, maxRetries);
      assert writers[..n - 1] == seq(n - 1, _ => Beginning(0));
    }
  }

  /** How many steps of a schedule are really taken. */
  function Taken(s: State, schedule: seq<Step>, maxRetries: nat): nat
    decreases |schedule|
  {
    if schedule == [] then 0
    else
      var init := schedule[..|schedule| - 1];
      Taken(s, init, maxRetries)
      + if Enabled(Run(s, init, maxRetries), schedule[|schedule| - 1]) then 1 else 0
  }

  lemma {:induction false} TakenBound(initial: nat, n: nat, maxRetries: nat, schedule: seq<Step>)
    requires initial + n < LIMIT
    ensures Taken(Start(initial, n), schedule, maxRetries)
         + TotalWork(Run(Start(initial, n), schedule, maxRetries).writers, maxRetries)
         <= n * (3 + 2 * maxRetries)
    decreases |schedule|
  {
    if schedule == [] {
      StartWork(n, maxRetries);
    } else {
      var init, step := schedule[..|schedule| - 1], schedule[|schedule| - 1];
      var s := Run(Start(initial, n), init, maxRetries);
      TakenBound(initial, n, maxRetries, init);
      if Enabled(s, step) {
        RunInv(initial, n, maxRetries, init);
        assert WriterOk(s, s.writers[step.i], initial, maxRetries);
        var s2 := Next(s, step, maxRetries);
        WorkUpdate(s.writers, step.i, s2.writers[step.i], maxRetries);
      }
    }
  }

  /** No schedule takes more steps than this, and until all are done one more is possible. */
  lemma EveryScheduleEnds(initial: nat, n: nat, maxRetries: nat, schedule: seq<Step>)
    requires initial + n < LIMIT
    ensures Taken(Start(initial, n), schedule, maxRetries) <= n * (3 + 2 * maxRetries)
    ensures var s := Run(Start(initial, n), schedule, maxRetries);
            AllDone(s) || exists step :: Enabled(s, step)
  {
    TakenBound(initial, n, maxRetries, schedule);
    var s := Run(Start(initial, n), schedule, maxRetries);
    if i :| 0 <= i < |s.writers| && !s.writers[i].Done? {
      assert Enabled(s, Snapshot(i)) || Enabled(s, Swap(i)) || Enabled(s, Store(i, true));
    }
  }
}
