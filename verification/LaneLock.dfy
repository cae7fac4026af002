/**
 The lane lock: a lock file created exclusively, filled with its owner's process id, read by
 those who find it, and removed by its owner or by whoever thinks the owner dead. Every file
 operation is a step of its own, and the steps of all clients interleave freely.
 */
module LaneLock {
  import opened Options

  /** A file still being written does not parse. */
  datatype Content = Partial | Owner(pid: nat)

  /** `generation` tells apart the files that have existed under the one lock path. */
  datatype File = File(generation: nat, creator: nat, content: Content)

  datatype Client =
    | Idle                      // not acquiring, or given up: timeout, I/O error, released
    | Trying                    // about to create the file
    | Writing(generation: nat)  // created it, JSON not complete
    | Active(generation: nat)   // holds the guard
    | Reading                   // found the file
    | Testing(pid: nat)         // has read its owner
    | Removing                  // found the owner dead
    | Waiting                   // sleeps until the next poll
    | Exited                    // its process is gone

  /**
   `pids[c]` is the process of client `c`. On systems other than Unix the liveness test knows
   only the caller itself. `holdersMayExit` says whether a process that has ever created the
   lock file may exit.
   */
  datatype Config = Config(pids: seq<nat>, unix: bool, holdersMayExit: bool)

  datatype State = State(
    file: Option<File>, generations: nat, clients: seq<Client>, exited: set<nat>, holders: set<nat>)

  datatype Step =
    | Begin(c: nat) | Create(c: nat) | Write(c: nat) | WriteFails(c: nat)
    | Read(c: nat) | Test(c: nat) | Remove(c: nat) | Retry(c: nat) | GiveUp(c: nat)
    | Release(c: nat) | ReleaseFails(c: nat)
    | Exit(pid: nat)

  function Start(cfg: Config): State {
    State(None, 0, seq(|cfg.pids|, _ => Idle), {}, {})
  }

  /** `process_alive` as client `c` evaluates it. */
  predicate SeemsAlive(cfg: Config, s: State, c: nat, pid: nat)
    requires c < |cfg.pids|
  {
    if cfg.unix then pid !in s.exited else pid == cfg.pids[c]
  }

  predicate Enabled(cfg: Config, s: State, step: Step)
    requires |s.clients| == |cfg.pids|
  {
    if step.Exit? then step.pid !in s.exited && (cfg.holdersMayExit || step.pid !in s.holders)
    else
      && step.c < |s.clients|
      && var client := s.clients[step.c];
         match step
         case Begin(_) => client.Idle?
         case Create(_) => client.Trying?
         case Write(_) => client.Writing?
         case WriteFails(_) => client.Writing?
         case Read(_) => client.Reading?
         case Test(_) => client.Testing?
         case Remove(_) => client.Removing?
         case Retry(_) => client.Waiting?
         case GiveUp(_) => client.Trying? || client.Reading? || client.Removing? || client.Waiting?
         case Release(_) => client.Active?
         case ReleaseFails(_) => client.Active?
  }

  function Move(s: State, c: nat, client: Client): State
    requires c < |s.clients|
  {
    s.(clients := s.clients[c := client])
  }

  function Next(cfg: Config, s: State, step: Step): State
    requires |s.clients| == |cfg.pids| && Enabled(cfg, s, step)
  {
    match step
    case Begin(c) => Move(s, c, Trying)
    case Create(c) =>
      if s.file.None? then
        Move(s, c, Writing(s.generations)).(
          file := Some(File(s.generations, c, Partial)),
          generations := s.generations + 1,
          holders := s.holders + {cfg.pids[c]})
      else Move(s, c, Reading)
    case Write(c) =>
      // writing to a file that was removed meanwhile changes nothing under the path
      var g := s.clients[c].generation;
      var file := if s.file.Some? && s.file.value.generation == g
                  then Some(s.file.value.(content := Owner(cfg.pids[c]))) else s.file;
      Move(s, c, Active(g)).(file := file)
    case WriteFails(c) => Move(s, c, Idle)
    case Read(c) =>
      if s.file.Some? && s.file.value.content.Owner? then Move(s, c, Testing(s.file.value.content.pid))
      else Move(s, c, Waiting)
    case Test(c) =>
      Move(s, c, if SeemsAlive(cfg, s, c, s.clients[c].pid) then Waiting else Removing)
    case Remove(c) => Move(s, c, Waiting).(file := None)
    case Retry(c) => Move(s, c, Trying)
    case GiveUp(c) => Move(s, c, Idle)
    case Release(c) => Move(s, c, Idle).(file := None)
    case ReleaseFails(c) => Move(s, c, Idle)
    case Exit(pid) =>
      s.(exited := s.exited + {pid},
         clients := seq(|s.clients|, c requires 0 <= c < |s.clients| =>
           if cfg.pids[c] == pid then Exited else s.clients[c]))
  }

  lemma NextKeepsClients(cfg: Config, s: State, step: Step)
    requires |s.clients| == |cfg.pids| && Enabled(cfg, s, step)
    ensures |Next(cfg, s, step).clients| == |cfg.pids|
  {
  }

  /** The state after a schedule; steps that are not possible are skipped. */
  function Run(cfg: Config, schedule: seq<Step>): (s: State)
    ensures |s.clients| == |cfg.pids|
    decreases |schedule|
  {
    if schedule == [] then Start(cfg)
    else
      var before := Run(cfg, schedule[..|schedule| - 1]);
      var step := schedule[|schedule| - 1];
      if Enabled(cfg, before, step) then
        NextKeepsClients(cfg, before, step);
        Next(cfg, before, step)
      else before
  }

  ghost predicate Reachable(cfg: Config, s: State) {
    exists schedule :: Run(cfg, schedule) == s
  }

  lemma StartReachable(cfg: Config)
    ensures Reachable(cfg, Start(cfg))
  {
    assert Run(cfg, []) == Start(cfg);
  }

  lemma NextReachable(cfg: Config, s: State, step: Step)
    requires |s.clients| == |cfg.pids| && Reachable(cfg, s) && Enabled(cfg, s, step)
    ensures Reachable(cfg, Next(cfg, s, step))
  {
    var schedule :| Run(cfg, schedule) == s;
    assert (schedule + [step])[..|schedule|] == schedule;
    assert Run(cfg, schedule + [step]) == Next(cfg, s, step);
  }

  // ----- mutual exclusion

  predicate Holds(client: Client) {
    client.Writing? || client.Active?
  }

  /** At most one guard is active. */
  ghost predicate Exclusive(s: State) {
    forall c, d | 0 <= c < d < |s.clients| :: !(s.clients[c].Active? && s.clients[d].Active?)
  }

  /**
   What one client knows is true: its file is there, unfinished while it writes, and owners it
   has read have not exited.
   */
  ghost predicate ClientOk(cfg: Config, s: State, c: nat)
    requires c < |s.clients| == |cfg.pids|
  {
    var client := s.clients[c];
    && (Holds(client) ==>
          && s.file.Some? && s.file.value.creator == c && s.file.value.generation == client.generation
          && cfg.pids[c] in s.holders
          && (client.Writing? ==> s.file.value.content.Partial?))
    && (client.Testing? ==> client.pid in s.holders)
    && !client.Removing?
    && (!client.Exited? ==> cfg.pids[c] !in s.exited)
  }

  ghost predicate Inv(cfg: Config, s: State) {
    && |s.clients| == |cfg.pids|
    && s.holders !! s.exited && (forall pid <- s.holders :: pid in cfg.pids)
    && (s.file.Some? && s.file.value.content.Owner? ==> s.file.value.content.pid in s.holders)
    && forall c | 0 <= c < |cfg.pids| :: ClientOk(cfg, s, c)
  }

  /** All clients live in one process. */
  ghost predicate OneProcess(cfg: Config) {
    forall a, b | 0 <= a < |cfg.pids| && 0 <= b < |cfg.pids| :: cfg.pids[a] == cfg.pids[b]
  }

  /** Liveness can be told: it can be asked, or only concerns the caller itself. */
  ghost predicate LivenessKnown(cfg: Config) {
    cfg.unix || OneProcess(cfg)
  }

  /** Every operation but the exit of a holder keeps the invariant. */
  lemma StepInv(cfg: Config, s: State, step: Step)
    requires LivenessKnown(cfg)
    requires Inv(cfg, s) && Enabled(cfg, s, step) && (step.Exit? ==> step.pid !in s.holders)
    ensures Inv(cfg, Next(cfg, s, step))
  {
    var s2 := Next(cfg, s, step);
    if !step.Exit? {
      assert ClientOk(cfg, s, step.c);
      if step.Test? {
        assert cfg.pids[step.c] in cfg.pids;
        assert SeemsAlive(cfg, s, step.c, s.clients[step.c].pid);
      }
    }
    forall c | 0 <= c < |cfg.pids| ensures ClientOk(cfg, s2, c) {
      assert ClientOk(cfg, s, c);
    }
  }

  lemma {:induction false} RunInv(cfg: Config, schedule: seq<Step>)
    requires LivenessKnown(cfg) && !cfg.holdersMayExit
    ensures Inv(cfg, Run(cfg, schedule))
    decreases |schedule|
  {
    if schedule != [] {
      var init, step := schedule[..|schedule| - 1], schedule[|schedule| - 1];
      RunInv(cfg, init);
      if Enabled(cfg, Run(cfg, init), step) {
        StepInv(cfg, Run(cfg, init), step);
      }
    }
  }

  /**
   When liveness can be told, and as long as no process that ever held the lane has exited: at
   most one guard is active, its lock file is its own, and whatever is removed is the
   remover's own file.
   */
  lemma MutualExclusion(cfg: Config, s: State)
    requires LivenessKnown(cfg) && !cfg.holdersMayExit && Reachable(cfg, s)
    ensures |s.clients| == |cfg.pids| && Exclusive(s)
    ensures forall c | 0 <= c < |s.clients| && s.clients[c].Active? ::
      s.file.Some? && s.file.value.creator == c && s.file.value.generation == s.clients[c].generation
    ensures forall step | Enabled(cfg, s, step) && s.file.Some? && Next(cfg, s, step).file.None? ::
      step.Release? && s.file.value.creator == step.c
      && s.file.value.generation == s.clients[step.c].generation
  {
    var schedule :| Run(cfg, schedule) == s;
    RunInv(cfg, schedule);
    forall c | 0 <= c < |s.clients| && s.clients[c].Active?
      ensures s.file.Some? && s.file.value.creator == c && s.file.value.generation == s.clients[c].generation
    {
      assert ClientOk(cfg, s, c);
    }
    forall step | Enabled(cfg, s, step) && s.file.Some? && Next(cfg, s, step).file.None?
      ensures step.Release? && s.file.value.creator == step.c
           && s.file.value.generation == s.clients[step.c].generation
    {
      assert !step.Exit?;
      assert ClientOk(cfg, s, step.c);
    }
  }

  // ----- where it fails

  /** Client `c` polls once: it finds the file of `owner` and is about to test it. */
  lemma Poll(cfg: Config, s: State, c: nat, owner: nat) returns (s2: State)
    requires |s.clients| == |cfg.pids| && c < |s.clients| && Reachable(cfg, s)
    requires s.clients[c].Idle? && s.file.Some? && s.file.value.content == Owner(owner)
    ensures Reachable(cfg, s2) && s2 == Move(s, c, Testing(owner))
  {
    var a := Next(cfg, s, Begin(c));
    NextReachable(cfg, s, Begin(c));
    var b := Next(cfg, a, Create(c));
    NextReachable(cfg, a, Create(c));
    s2 := Next(cfg, b, Read(c));
    NextReachable(cfg, b, Read(c));
  }

  /** Client `c`, about to create the file where there is none, ends up holding the lane. */
  lemma Take(cfg: Config, s: State, c: nat) returns (s2: State)
    requires |s.clients| == |cfg.pids| && c < |s.clients| && Reachable(cfg, s)
    requires s.clients[c].Trying? && s.file.None?
    ensures Reachable(cfg, s2)
    ensures s2 == Move(s, c, Active(s.generations)).(
                    file := Some(File(s.generations, c, Owner(cfg.pids[c]))),
                    generations := s.generations + 1,
                    holders := s.holders + {cfg.pids[c]})
  {
    var a := Next(cfg, s, Create(c));
    NextReachable(cfg, s, Create(c));
    s2 := Next(cfg, a, Write(c));
    NextReachable(cfg, a, Write(c));
  }

  /** Client `c` removes whatever file there is now, and polls again. */
  lemma Steal(cfg: Config, s: State, c: nat) returns (s2: State)
    requires |s.clients| == |cfg.pids| && c < |s.clients| && Reachable(cfg, s)
    requires s.clients[c].Removing?
    ensures Reachable(cfg, s2) && s2 == Move(s, c, Trying).(file := None)
  {
    var a := Next(cfg, s, Remove(c));
    NextReachable(cfg, s, Remove(c));
    s2 := Next(cfg, a, Retry(c));
    NextReachable(cfg, a, Retry(c));
  }

  lemma FirstTakes(cfg: Config, a: nat) returns (s: State)
    requires a < |cfg.pids|
    ensures Reachable(cfg, s)
    ensures s == State(Some(File(0, a, Owner(cfg.pids[a]))), 1,
                       seq(|cfg.pids|, _ => Idle)[a := Active(0)], {}, {cfg.pids[a]})
  {
    var start := Start(cfg);
    StartReachable(cfg);
    NextReachable(cfg, start, Begin(a));
    s := Take(cfg, Next(cfg, start, Begin(a)), a);
  }

  /** Off Unix every other process seems dead, so a second process simply takes the lane over. */
  lemma OffUnixFails(cfg: Config, a: nat, b: nat) returns (s: State)
    requires !cfg.unix && a < |cfg.pids| && b < |cfg.pids| && cfg.pids[a] != cfg.pids[b]
    ensures Reachable(cfg, s) && |s.clients| == |cfg.pids| && !Exclusive(s)
  {
    s := FirstTakes(cfg, a);
    s := Poll(cfg, s, b, cfg.pids[a]);
    NextReachable(cfg, s, Test(b));
    s := Next(cfg, s, Test(b));
    s := Steal(cfg, s, b);
    s := Take(cfg, s, b);
    BothActive(s, a, b);
  }

  lemma BothActive(s: State, a: nat, b: nat)
    requires a < |s.clients| && b < |s.clients| && a != b && s.clients[a].Active? && s.clients[b].Active?
    ensures !Exclusive(s)
  {
    var c, d := if a < b then a else b, if a < b then b else a;
    assert s.clients[c].Active? && s.clients[d].Active?;
  }

  /**
   When a holder exits, two clients outside its process can both have read its name: the
   slower one then removes the lock file of the faster one.
   */
  lemma ExitFails(cfg: Config, a: nat, b: nat, c: nat) returns (s: State)
    requires cfg.unix && cfg.holdersMayExit
    requires Outside(cfg, a, b, c)
    ensures Reachable(cfg, s) && |s.clients| == |cfg.pids| && !Exclusive(s)
  {
    s := FirstTakes(cfg, a);
    s := Poll(cfg, s, b, cfg.pids[a]);
    s := Poll(cfg, s, c, cfg.pids[a]);
    NextReachable(cfg, s, Exit(cfg.pids[a]));
    s := Next(cfg, s, Exit(cfg.pids[a]));
    NextReachable(cfg, s, Test(b));
    s := Next(cfg, s, Test(b));
    NextReachable(cfg, s, Test(c));
    s := Next(cfg, s, Test(c));
    s := Steal(cfg, s, b);
    s := Take(cfg, s, b);
    s := Steal(cfg, s, c);
    s := Take(cfg, s, c);
    BothActive(s, b, c);
  }

  // ----- exactly when it holds

  ghost predicate AlwaysExclusive(cfg: Config) {
    forall s | Reachable(cfg, s) :: Exclusive(s)
  }

  /** Clients `b` and `c` are outside the process of client `a`. */
  predicate Outside(cfg: Config, a: nat, b: nat, c: nat) {
    && a < |cfg.pids| && b < |cfg.pids| && c < |cfg.pids|
    && b != c && cfg.pids[b] != cfg.pids[a] && cfg.pids[c] != cfg.pids[a]
  }

  /** All clients of some client's process have exited. */
  ghost predicate ProcessGone(cfg: Config, s: State)
    requires |s.clients| == |cfg.pids|
  {
    exists a: nat :: a < |cfg.pids| && ClientsGone(cfg, s, cfg.pids[a])
  }

  ghost predicate ClientsGone(cfg: Config, s: State, pid: nat)
    requires |s.clients| == |cfg.pids|
  {
    forall c | 0 <= c < |cfg.pids| && cfg.pids[c] == pid :: s.clients[c].Exited?
  }

  lemma StepGone(cfg: Config, s: State, step: Step)
    requires |s.clients| == |cfg.pids| && Enabled(cfg, s, step)
    ensures |Next(cfg, s, step).clients| == |cfg.pids|
    ensures ProcessGone(cfg, s) ==> ProcessGone(cfg, Next(cfg, s, step))
    ensures step.Exit? && step.pid in cfg.pids ==> ProcessGone(cfg, Next(cfg, s, step))
  {
    var s2 := Next(cfg, s, step);
    if ProcessGone(cfg, s) {
      var a: nat :| a < |cfg.pids| && ClientsGone(cfg, s, cfg.pids[a]);
      assert ClientsGone(cfg, s2, cfg.pids[a]);
    }
    if step.Exit? && step.pid in cfg.pids {
      var a :| 0 <= a < |cfg.pids| && cfg.pids[a] == step.pid;
      assert ClientsGone(cfg, s2, cfg.pids[a]);
    }
  }

  /** If holders may exit, the invariant holds until the clients of some process are gone. */
  lemma {:induction false} RunInvOrGone(cfg: Config, schedule: seq<Step>)
    requires LivenessKnown(cfg)
    ensures Inv(cfg, Run(cfg, schedule)) || ProcessGone(cfg, Run(cfg, schedule))
    decreases |schedule|
  {
    if schedule != [] {
      var init, step := schedule[..|schedule| - 1], schedule[|schedule| - 1];
      var s := Run(cfg, init);
      RunInvOrGone(cfg, init);
      if Enabled(cfg, s, step) {
        StepGone(cfg, s, step);
        if Inv(cfg, s) && (step.Exit? ==> step.pid !in s.holders) {
          StepInv(cfg, s, step);
        }
      }
    }
  }

  lemma InvExcludes(cfg: Config, s: State)
    requires Inv(cfg, s)
    ensures Exclusive(s)
  {
    forall c | 0 <= c < |s.clients| && s.clients[c].Active? ensures s.file.Some? && s.file.value.creator == c {
      assert ClientOk(cfg, s, c);
    }
  }

  lemma GoneExcludes(cfg: Config, s: State)
    requires |s.clients| == |cfg.pids| && ProcessGone(cfg, s)
    requires forall a: nat, b: nat, c: nat :: !Outside(cfg, a, b, c)
    ensures Exclusive(s)
  {
    var a: nat :| a < |cfg.pids| && ClientsGone(cfg, s, cfg.pids[a]);
    forall c, d | 0 <= c < d < |s.clients| ensures !(s.clients[c].Active? && s.clients[d].Active?) {
      assert !Outside(cfg, a, c, d);
    }
  }

  /**
   The lock excludes in every run exactly if all clients share one process, or liveness can be
   asked and either holders do not exit or no process has two clients outside it.
   */
  lemma ExclusionIsExact(cfg: Config)
    ensures AlwaysExclusive(cfg)
       <==> || OneProcess(cfg)
            || (cfg.unix
                && (!cfg.holdersMayExit || forall a: nat, b: nat, c: nat :: !Outside(cfg, a, b, c)))
  {
    if !OneProcess(cfg) && !cfg.unix {
      var a: nat, b: nat :| a < |cfg.pids| && b < |cfg.pids| && cfg.pids[a] != cfg.pids[b];
      var s := OffUnixFails(cfg, a, b);
    } else if !OneProcess(cfg) && cfg.holdersMayExit && exists a: nat, b: nat, c: nat :: Outside(cfg, a, b, c) {
      var a: nat, b: nat, c: nat :| Outside(cfg, a, b, c);
      var s := ExitFails(cfg, a, b, c);
    } else {
      forall s | Reachable(cfg, s) ensures Exclusive(s) {
        var schedule :| Run(cfg, schedule) == s;
        RunInvOrGone(cfg, schedule);
        if Inv(cfg, s) {
          InvExcludes(cfg, s);
        } else if !cfg.holdersMayExit {
          RunInv(cfg, schedule);
        } else {
          GoneExcludes(cfg, s);
        }
      }
    }
  }

  // ----- when nobody gets in any more

  /**
   The lane is locked out: an unfinished file is there, nobody is writing it or holds the lane,
   and nobody is about to remove it, now or after a liveness test still to come.
   */
  ghost predicate LockedOut(cfg: Config, s: State) {
    && |s.clients| == |cfg.pids|
    && s.file.Some? && s.file.value.content.Partial?
    && forall c | 0 <= c < |cfg.pids| :: Harmless(cfg, s, c)
  }

  ghost predicate Harmless(cfg: Config, s: State, c: nat)
    requires c < |s.clients| == |cfg.pids|
  {
    var client := s.clients[c];
    && !Holds(client) && !client.Removing?
    && (client.Testing? ==> SureAlive(cfg, s, client.pid))
    && (!client.Exited? ==> cfg.pids[c] !in s.exited)
  }

  /** The process holds out: it has not exited and may not, and every client can tell. */
  ghost predicate SureAlive(cfg: Config, s: State, pid: nat) {
    && LivenessKnown(cfg) && !cfg.holdersMayExit
    && pid in s.holders && pid in cfg.pids && pid !in s.exited
  }

  lemma StepLockedOut(cfg: Config, s: State, step: Step)
    requires LockedOut(cfg, s) && Enabled(cfg, s, step)
    ensures LockedOut(cfg, Next(cfg, s, step)) && Next(cfg, s, step).file == s.file
  {
    var s2 := Next(cfg, s, step);
    if !step.Exit? {
      assert Harmless(cfg, s, step.c);
      if step.Test? {
        assert cfg.pids[step.c] in cfg.pids;
        assert SeemsAlive(cfg, s, step.c, s.clients[step.c].pid);
      }
    }
    forall c | 0 <= c < |cfg.pids| ensures Harmless(cfg, s2, c) {
      assert Harmless(cfg, s, c);
    }
  }

  /** The unfinished file stays for ever: no schedule lets anybody in again. */
  lemma {:induction false} LockedOutForEver(cfg: Config, schedule: seq<Step>, more: seq<Step>)
    requires LockedOut(cfg, Run(cfg, schedule))
    ensures var s := Run(cfg, schedule + more);
            && LockedOut(cfg, s) && s.file == Run(cfg, schedule).file
            && forall c | 0 <= c < |s.clients| :: !s.clients[c].Active?
    decreases |more|
  {
    if more == [] {
      assert schedule + more == schedule;
    } else {
      var init, step := more[..|more| - 1], more[|more| - 1];
      LockedOutForEver(cfg, schedule, init);
      assert (schedule + more)[..|schedule + more| - 1] == schedule + init;
      if Enabled(cfg, Run(cfg, schedule + init), step) {
        StepLockedOut(cfg, Run(cfg, schedule + init), step);
      }
    }
    forall c | 0 <= c < |cfg.pids| ensures !Run(cfg, schedule + more).clients[c].Active? {
      assert Harmless(cfg, Run(cfg, schedule + more), c);
    }
  }

  /** While the lock excludes, one write that fails is enough. */
  lemma FailedWriteLocksOut(cfg: Config, schedule: seq<Step>, c: nat)
    requires LivenessKnown(cfg) && !cfg.holdersMayExit
    requires Enabled(cfg, Run(cfg, schedule), WriteFails(c))
    ensures LockedOut(cfg, Run(cfg, schedule + [WriteFails(c)]))
  {
    var s := Run(cfg, schedule);
    var s2 := Next(cfg, s, WriteFails(c));
    RunInv(cfg, schedule);
    assert (schedule + [WriteFails(c)])[..|schedule|] == schedule;
    assert ClientOk(cfg, s, c);
    forall d | 0 <= d < |cfg.pids| ensures Harmless(cfg, s2, d) {
      assert ClientOk(cfg, s, d);
    }
  }

  /** So is a client that exits while it writes, unless another is about to test or remove. */
  lemma ExitWhileWritingLocksOut(cfg: Config, schedule: seq<Step>, c: nat)
    requires c < |cfg.pids|
    requires var s := Run(cfg, schedule);
             && Enabled(cfg, s, Exit(cfg.pids[c])) && s.clients[c].Writing?
             && s.file.Some? && s.file.value.content.Partial?
             && forall d | 0 <= d < |cfg.pids| && cfg.pids[d] != cfg.pids[c] ::
                  !Holds(s.clients[d]) && !s.clients[d].Testing? && !s.clients[d].Removing?
    ensures LockedOut(cfg, Run(cfg, schedule + [Exit(cfg.pids[c])]))
  {
    var s, step := Run(cfg, schedule), Exit(cfg.pids[c]);
    assert (schedule + [step])[..|schedule|] == schedule;
    RunExits(cfg, schedule);
  }

  lemma {:induction false} RunExits(cfg: Config, schedule: seq<Step>)
    ensures var s := Run(cfg, schedule);
            forall c | 0 <= c < |cfg.pids| :: !s.clients[c].Exited? ==> cfg.pids[c] !in s.exited
    decreases |schedule|
  {
    if schedule != [] {
      RunExits(cfg, schedule[..|schedule| - 1]);
    }
  }

  // ----- the guard object

  /** The lock path of one lane, as an object shared by all who use it. */
  class LockPath {
    var file: Option<File>

    constructor ()
      ensures file == None
    {
      file := None;
    }
  }

  class Guard {
    const path: LockPath
    var active: bool

    constructor (path: LockPath)
      ensures this.path == path && active
    {
      this.path, active := path, true;
    }

    /** `release_inner`: a file that is already gone is no error; after an error it stays active. */
    method ReleaseInner(removeFails: bool) returns (ok: bool)
      modifies this`active, path`file
      ensures ok == (!old(active) || !removeFails)
      ensures !old(active) || removeFails ==> active == old(active) && path.file == old(path.file)
      ensures old(active) && !removeFails ==> !active && path.file == None
    {
      if !active {
        return true;
      }
      if removeFails {
        return false;
      }
      path.file := None;
      active := false;
      ok := true;
    }

    /**
     `release` followed by the drop of the guard, with a successor taking the lane between
     the two: the drop leaves the successor's file alone.
     */
    method ReleaseThenDrop(releaseFails: bool, dropFails: bool, successor: File) returns (ok: bool)
      requires active
      modifies this`active, path`file
      ensures ok == !releaseFails
      ensures ok ==> path.file == Some(successor)
      ensures !ok && dropFails ==> path.file == old(path.file)
      ensures !ok && !dropFails ==> path.file == None
    {
      ok := ReleaseInner(releaseFails);
      if ok {
        path.file := Some(successor);
      }
      var _ := ReleaseInner(dropFails);
    }
  }
}
