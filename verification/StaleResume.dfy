/** The session-file check: servers that came back after a removal with instructions but without tools. */
module StaleResume {
  import opened Options
  import Seqs

  /** A line of the session file that matters; names are given by the servers their tools belong to. */
  datatype Line =
    | Tools(at: Option<string>, removed: seq<string>, added: seq<string>, readded: seq<string>)
    | Instructions(at: Option<string>, added: seq<string>)

  /** What one name on one line means. */
  datatype Event =
    | Removed(server: string, at: Option<string>)
    | Readded(server: string)
    | Instructed(server: string, at: Option<string>)

  datatype State = State(removedAt: Option<string>, readded: bool, instructedAt: Option<string>)

  datatype Finding = Finding(server: string, removedAt: Option<string>)

  // ----- the meaning of a trace

  /** The server's last removal. */
  ghost predicate LastRemoval(trace: seq<Event>, server: string, r: nat) {
    && r < |trace| && trace[r].Removed? && trace[r].server == server
    && forall k | r < k < |trace| :: !(trace[k].Removed? && trace[k].server == server)
  }

  ghost predicate ReaddedSince(trace: seq<Event>, server: string, r: nat) {
    exists k | r < k < |trace| :: trace[k] == Readded(server)
  }

  /** The last instructions since, if any. */
  ghost predicate LastInstructed(trace: seq<Event>, server: string, r: nat, i: nat) {
    && r < i < |trace| && trace[i].Instructed? && trace[i].server == server
    && forall k | i < k < |trace| :: !(trace[k].Instructed? && trace[k].server == server)
  }

  /** Removed for good at a known time, and instructed again at a known time. */
  ghost predicate Stale(trace: seq<Event>, f: Finding) {
    f.removedAt.Some? && exists r: nat, i: nat ::
      && LastRemoval(trace, f.server, r) && trace[r].at == f.removedAt
      && !ReaddedSince(trace, f.server, r)
      && LastInstructed(trace, f.server, r, i) && trace[i].at.Some?
  }

  // ----- the automaton

  type States = map<string, State>

  /** What one event does to the state of its server. */
  function Step(states: States, e: Event): States {
    match e
    case Removed(server, at) => states[server := State(at, false, None)]
    case Readded(server) =>
      if server in states && states[server].removedAt.Some? then states[server := states[server].(readded := true)]
      else states
    case Instructed(server, at) =>
      if server in states && states[server].removedAt.Some? && !states[server].readded then
        states[server := states[server].(instructedAt := at)]
      else states
  }

  predicate Reported(s: State) {
    s.removedAt.Some? && !s.readded && s.instructedAt.Some?
  }

  /** The state of a server reads off its trace. */
  ghost predicate Reads(trace: seq<Event>, server: string, states: States) {
    if server !in states then forall r: nat :: !LastRemoval(trace, server, r)
    else
      var s := states[server];
      exists r: nat :: LastRemoval(trace, server, r) && trace[r].at == s.removedAt && ReadsSince(trace, server, r, s)
  }

  /** Without a time of removal nothing more is recorded; after a re-add the instructions do not matter. */
  ghost predicate ReadsSince(trace: seq<Event>, server: string, r: nat, s: State) {
    s.removedAt.Some? ==>
      && (s.readded <==> ReaddedSince(trace, server, r))
      && (!s.readded ==>
            match s.instructedAt
            case Some(at) => exists i: nat :: LastInstructed(trace, server, r, i) && trace[i].at == Some(at)
            case None => forall i: nat :: LastInstructed(trace, server, r, i) ==> trace[i].at == None)
  }

  lemma Appended(trace: seq<Event>, e: Event, server: string, r: nat)
    ensures LastRemoval(trace + [e], server, r)
       <==> if e.Removed? && e.server == server then r == |trace| else LastRemoval(trace, server, r)
    ensures r < |trace| ==>
              (ReaddedSince(trace + [e], server, r) <==> ReaddedSince(trace, server, r) || e == Readded(server))
  {
    var longer := trace + [e];
    assert longer[|trace|] == e;
    assert forall k | 0 <= k < |trace| :: longer[k] == trace[k];
  }

  lemma AppendedInstructions(trace: seq<Event>, e: Event, server: string, r: nat, i: nat)
    requires r < |trace|
    ensures LastInstructed(trace + [e], server, r, i)
       <==> if e.Instructed? && e.server == server then i == |trace| else LastInstructed(trace, server, r, i)
  {
    var longer := trace + [e];
    assert longer[|trace|] == e;
    assert forall k | 0 <= k < |trace| :: longer[k] == trace[k];
  }

  lemma ReadsSinceStep(trace: seq<Event>, e: Event, server: string, r: nat, states: States)
    requires server in states && r < |trace| && LastRemoval(trace, server, r)
    requires ReadsSince(trace, server, r, states[server])
    requires !(e.Removed? && e.server == server)
    requires trace[r].at == states[server].removedAt
    ensures ReadsSince(trace + [e], server, r, Step(states, e)[server])
  {
    hide LastRemoval, ReaddedSince;
    Appended(trace, e, server, r);
    forall i: nat ensures LastInstructed(trace + [e], server, r, i)
       <==> if e.Instructed? && e.server == server then i == |trace| else LastInstructed(trace, server, r, i) {
      AppendedInstructions(trace, e, server, r, i);
    }
    var s, longer := Step(states, e)[server], trace + [e];
    if s.removedAt.Some? && !s.readded && s.instructedAt.Some? {
      if e.Instructed? && e.server == server {
        assert LastInstructed(longer, server, r, |trace|);
      } else {
        var i: nat :| LastInstructed(trace, server, r, i) && trace[i].at == s.instructedAt;
        assert LastInstructed(longer, server, r, i);
      }
    }
  }

  lemma ReadsStep(trace: seq<Event>, e: Event, server: string, states: States)
    requires Reads(trace, server, states)
    ensures Reads(trace + [e], server, Step(states, e))
  {
    hide ReaddedSince, LastInstructed, ReadsSince;
    forall r: nat ensures LastRemoval(trace + [e], server, r)
       <==> if e.Removed? && e.server == server then r == |trace| else LastRemoval(trace, server, r) {
      Appended(trace, e, server, r);
    }
    if e.Removed? && e.server == server {
      NothingSince(trace, e, State(e.at, false, None));
      assert LastRemoval(trace + [e], server, |trace|);
    } else if server in states {
      var r: nat :| LastRemoval(trace, server, r) && trace[r].at == states[server].removedAt
                    && ReadsSince(trace, server, r, states[server]);
      ReadsSinceStep(trace, e, server, r, states);
      assert LastRemoval(trace + [e], server, r);
    }
  }

  lemma NothingSince(trace: seq<Event>, e: Event, s: State)
    requires e.Removed? && s == State(e.at, false, None)
    ensures ReadsSince(trace + [e], e.server, |trace|, s)
  {
  }

  /** The automaton reports a server exactly when its trace is stale. */
  lemma ReportedIffStale(trace: seq<Event>, states: States, f: Finding)
    requires Reads(trace, f.server, states)
    ensures Stale(trace, f)
       <==> f.server in states && Reported(states[f.server]) && states[f.server].removedAt == f.removedAt
  {
    hide ReaddedSince;
    if f.server in states {
      var s := states[f.server];
      var r: nat :| LastRemoval(trace, f.server, r) && trace[r].at == s.removedAt && ReadsSince(trace, f.server, r, s);
      forall q: nat | LastRemoval(trace, f.server, q) ensures q == r {
      }
      forall i: nat, j: nat | LastInstructed(trace, f.server, r, i) && LastInstructed(trace, f.server, r, j)
        ensures i == j
      {
      }
    }
  }

  // ----- reading the file

  function Removals(names: seq<string>, at: Option<string>, artesian: string -> bool): seq<Event> {
    if names == [] then []
    else (if artesian(names[0]) then [Removed(names[0], at)] else []) + Removals(names[1..], at, artesian)
  }

  function Readds(names: seq<string>): seq<Event> {
    seq(|names|, i requires 0 <= i < |names| => Readded(names[i]))
  }

  function InstructedNames(names: seq<string>, at: Option<string>, artesian: string -> bool): seq<Event> {
    if names == [] then []
    else (if artesian(names[0]) then [Instructed(names[0], at)] else []) + InstructedNames(names[1..], at, artesian)
  }

  /** What a line says, removals before additions; only the program's own servers can be removed or instructed. */
  function EventsOf(line: Line, artesian: string -> bool): seq<Event> {
    match line
    case Tools(at, removed, added, readded) => Removals(removed, at, artesian) + Readds(added + readded)
    case Instructions(at, added) => InstructedNames(added, at, artesian)
  }

  function TraceOf(lines: seq<Line>, artesian: string -> bool): seq<Event> {
    if lines == [] then []
    else TraceOf(lines[..|lines| - 1], artesian) + EventsOf(lines[|lines| - 1], artesian)
  }

  ghost predicate Tracks(trace: seq<Event>, states: States) {
    forall server :: Reads(trace, server, states)
  }

  method Follow(ghost trace: seq<Event>, events: seq<Event>, before: States) returns (states: States)
    requires Tracks(trace, before)
    ensures Tracks(trace + events, states)
  {
    hide Reads;
    states := before;
    Seqs.Empty(trace);
    Seqs.TakeAll(events);
    for i := 0 to |events|
      invariant Tracks(trace + events[..i], states)
    {
      forall server ensures Reads(trace + events[..i] + [events[i]], server, Step(states, events[i])) {
        ReadsStep(trace + events[..i], events[i], server, states);
      }
      states := Step(states, events[i]);
      Seqs.Assoc(trace, events[..i], [events[i]]);
      Seqs.TakeStep(events, i);
    }
  }

  lemma NothingTracked()
    ensures Tracks([], map[])
  {
  }

  lemma TraceStep(lines: seq<Line>, i: nat, artesian: string -> bool)
    requires i < |lines|
    ensures TraceOf(lines[..i + 1], artesian) == TraceOf(lines[..i], artesian) + EventsOf(lines[i], artesian)
  {
    assert lines[..i + 1][..i] == lines[..i];
  }

  /** `analyze_session_file`, over the lines that could be read. */
  method AnalyzeSession(lines: seq<Line>, artesian: string -> bool) returns (findings: seq<Finding>)
    ensures forall f :: f in findings <==> Stale(TraceOf(lines, artesian), f)
    ensures forall i, j | 0 <= i < j < |findings| :: findings[i].server != findings[j].server
  {
    hide Reads, Stale, TraceOf, Step;
    var states: States := map[];
    NothingTracked();
    Seqs.TakeAll(lines);
    NoTrace(artesian);
    for i := 0 to |lines|
      invariant Tracks(TraceOf(lines[..i], artesian), states)
    {
      TraceStep(lines, i, artesian);
      states := Follow(TraceOf(lines[..i], artesian), EventsOf(lines[i], artesian), states);
    }
    forall f: Finding ensures Stale(TraceOf(lines, artesian), f)
       <==> f.server in states && Reported(states[f.server]) && states[f.server].removedAt == f.removedAt {
      ReportedIffStale(TraceOf(lines, artesian), states, f);
    }
    findings := [];
    var todo := states.Keys;
    while todo != {}
      invariant todo <= states.Keys
      invariant forall f :: f in findings <==>
        && f.server in states && f.server !in todo
        && Reported(states[f.server]) && states[f.server].removedAt == f.removedAt
      invariant forall i, j | 0 <= i < j < |findings| :: findings[i].server != findings[j].server
      decreases todo
    {
      var server :| server in todo;
      assert forall i | 0 <= i < |findings| :: findings[i] in findings;
      if Reported(states[server]) { findings := findings + [Finding(server, states[server].removedAt)]; }
      todo := todo - {server};
    }
  }

  lemma NoTrace(artesian: string -> bool)
    ensures TraceOf([], artesian) == []
  {
  }

  lemma {:induction false} RemovalsAre(names: seq<string>, at: Option<string>, artesian: string -> bool)
    ensures forall e :: e in Removals(names, at, artesian)
                   <==> e.Removed? && e.at == at && e.server in names && artesian(e.server)
  {
    if names != [] {
      RemovalsAre(names[1..], at, artesian);
      Seqs.HeadTail(names);
    }
  }

  lemma {:induction false} InstructedAre(names: seq<string>, at: Option<string>, artesian: string -> bool)
    ensures forall e :: e in InstructedNames(names, at, artesian)
                   <==> e.Instructed? && e.at == at && e.server in names && artesian(e.server)
  {
    if names != [] {
      InstructedAre(names[1..], at, artesian);
      Seqs.HeadTail(names);
    }
  }

  lemma ReaddsAre(names: seq<string>)
    ensures forall e :: e in Readds(names) <==> e.Readded? && e.server in names
  {
    forall e ensures e in Readds(names) <==> e.Readded? && e.server in names {
      if e.Readded? && e.server in names {
        var i :| 0 <= i < |names| && names[i] == e.server;
        assert Readds(names)[i] == e;
      }
    }
  }

  /**
   What a line says: its removals of the program's own servers, then every server added or
   re-added; or the program's own servers instructed again.
   */
  lemma EventsAre(line: Line, artesian: string -> bool)
    ensures forall e :: e in EventsOf(line, artesian) <==>
      match e
      case Removed(server, at) => line.Tools? && at == line.at && server in line.removed && artesian(server)
      case Readded(server) => line.Tools? && (server in line.added || server in line.readded)
      case Instructed(server, at) => line.Instructions? && at == line.at && server in line.added && artesian(server)
    ensures forall i, j | 0 <= i < |EventsOf(line, artesian)| && 0 <= j < |EventsOf(line, artesian)| ::
      EventsOf(line, artesian)[i].Removed? && EventsOf(line, artesian)[j].Readded? ==> i < j
  {
    match line
    case Tools(at, removed, added, readded) =>
      var front: seq<Event>, back: seq<Event> := Removals(removed, at, artesian), Readds(added + readded);
      var all: seq<Event> := front + back;
      RemovalsAre(removed, at, artesian);
      ReaddsAre(added + readded);
      forall i, j | 0 <= i < |all| && 0 <= j < |all| ensures all[i].Removed? && all[j].Readded? ==> i < j {
        assert i >= |front| ==> all[i] in back;
        assert j < |front| ==> all[j] in front;
      }
    case Instructions(at, added) => InstructedAre(added, at, artesian);
  }
}
