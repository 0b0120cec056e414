/**
  `measure_execution_time` (advent_of_action/main.py:38-70): the four phases
  of one solution, setup, part one, part two and teardown, each run through
  `execute_command` and classified into the report's `(seconds, kb, notes)`.
*/
module Measure {
  import opened Py
  import opened Runners
  import opened Records

  /** Setup and teardown run under this fixed timeout instead of the configured one. */
  const SetupTimeout: real := 60.0

  /**
    What a phase may use: the configured default timeout (`TIMEOUT_SECONDS`),
    the process oracle, and how summed CPU seconds are printed with `:.2f`.
  */
  datatype Runner = Runner(defaultTimeout: real, run: (seq<string>, real) -> Completion, fmt: CpuTime -> string)

  /** The day's two expected answers. */
  datatype Answers = Answers(one: string, two: string)

  /**
    The `try`/`except` of `inner`: how one phase's outcome becomes its stat.
    Only the reading of the wrapper's report raises past it.
  */
  function Classify(outcome: Outcome, answer: Option<string>, fmt: CpuTime -> string): (r: Result<Stat>)
    ensures r.Err? <==> outcome.Raised?
    ensures outcome.Raised? ==> r == Err(outcome.fault)
    ensures r.Ok? ==> (r.value.notes == "" <==> answer.Some? && outcome.Ran? && outcome.stdout == answer.value)
    ensures r.Ok? && r.value.notes == "" ==>
              r.value.seconds == fmt(outcome.seconds) && r.value.kilobytes == IntToString(outcome.kilobytes)
    ensures r.Ok? && r.value.notes != "" ==> r.value.seconds == "" && r.value.kilobytes == ""
    ensures outcome.Ran? && answer.None? ==> r == Ok(Stat("", "", "Done"))
    ensures outcome.Ran? && answer.Some? && outcome.stdout != answer.value ==> r == Ok(Stat("", "", "Different answer"))
    ensures outcome.ProcessError? ==> r == Ok(Stat("", "", "Error (" + IntToString(outcome.returncode) + ")"))
    ensures outcome.TimedOut? ==> r == Ok(Stat("", "", "Timeout"))
  {
    match outcome
    case Ran(kb, secs, out) =>
      if answer.None? then Ok(Stat("", "", "Done"))
      else if out != answer.value then Ok(Stat("", "", "Different answer"))
      else Ok(Stat(fmt(secs), IntToString(kb), ""))
    case ProcessError(code) => Ok(Stat("", "", "Error (" + IntToString(code) + ")"))
    case TimedOut(_) => Ok(Stat("", "", "Timeout"))
    case Raised(fault) => Err(fault)
  }

  /** A phase's stat, and the processes it started with how each ended. */
  datatype Phase = Phase(stat: Result<Stat>, log: seq<Execution>)

  /**
    `inner(part, answer, command)`. A part with an answer runs the command with
    the part's token appended, under the default timeout. Setup and teardown
    carry no answer: they run the command as it is under `SetupTimeout`, or
    run nothing when it is empty, and say "Done".
  */
  function Inner(part: Part, answer: Option<string>, command: seq<string>, rn: Runner): (p: Phase)
    ensures Calls(p.log) == PhaseCalls(part, answer, command, rn.defaultTimeout)
    ensures p.stat.Err? <==> |p.log| == 1 && p.log[0].outcome.Raised?
    ensures answer.Some? ==> |p.log| == 1 && p.log[0].call == Call(TimeWrapper + command + [part.Value()], rn.defaultTimeout)
    ensures answer.None? && command != [] ==> |p.log| == 1 && p.log[0].call == Call(TimeWrapper + command, SetupTimeout)
    ensures answer.None? && command == [] ==> p == Phase(Ok(Stat("", "", "Done")), [])
    ensures |p.log| == 1 ==> p.stat == Classify(p.log[0].outcome, answer, rn.fmt)
    ensures Observed(rn.run, p.log)
  {
    if answer.Some? then
      var e := ExecuteCommand(command + [part.Value()], None, rn.defaultTimeout, rn.run);
      assert TimeWrapper + (command + [part.Value()]) == TimeWrapper + command + [part.Value()];
      CallsOne(e);
      Phase(Classify(e.outcome, answer, rn.fmt), [e])
    else if command == [] then
      assert Calls([]) == [];
      Phase(Ok(Stat("", "", "Done")), [])
    else
      var e := ExecuteCommand(command, Some(SetupTimeout), rn.defaultTimeout, rn.run);
      CallsOne(e);
      Phase(Classify(e.outcome, None, rn.fmt), [e])
  }

  /** The process `inner` starts for one phase, if any. */
  function PhaseCalls(part: Part, answer: Option<string>, command: seq<string>, defaultTimeout: real): seq<Call> {
    if answer.Some? then [Call(TimeWrapper + command + [part.Value()], defaultTimeout)]
    else if command == [] then []
    else [Call(TimeWrapper + command, SetupTimeout)]
  }

  /** The processes the four phases start when nothing raises, in order. */
  function Plan(comm: Command, defaultTimeout: real): seq<Call> {
    (if comm.setup == [] then [] else [Call(TimeWrapper + comm.setup, SetupTimeout)])
    + [Call(TimeWrapper + comm.run + ["one"], defaultTimeout), Call(TimeWrapper + comm.run + ["two"], defaultTimeout)]
    + (if comm.teardown == [] then [] else [Call(TimeWrapper + comm.teardown, SetupTimeout)])
  }

  function Calls(log: seq<Execution>): (cs: seq<Call>)
    ensures |cs| == |log| && forall i :: 0 <= i < |log| ==> cs[i] == log[i].call
  {
    if log == [] then [] else [log[0].call] + Calls(log[1..])
  }

  lemma CallsOne(e: Execution)
    ensures Calls([e]) == [e.call]
  {
  }

  lemma CallsAppend(a: seq<Execution>, b: seq<Execution>)
    ensures Calls(a + b) == Calls(a) + Calls(b)
  {
    assert forall i :: 0 <= i < |a + b| ==> Calls(a + b)[i] == (Calls(a) + Calls(b))[i];
  }

  /** The plan is the four phases' calls one after another. */
  lemma PlanPhases(comm: Command, answers: Answers, t: real)
    ensures Plan(comm, t) == PhaseCalls(Setup, None, comm.setup, t) + PhaseCalls(One, Some(answers.one), comm.run, t)
                             + PhaseCalls(Two, Some(answers.two), comm.run, t) + PhaseCalls(Teardown, None, comm.teardown, t)
  {
  }

  /** The two returned stats, or what was raised; and every process started. */
  datatype Measurement = Measurement(stats: Result<Stats>, log: seq<Execution>)

  /**
    The tuple of the four `inner` calls, evaluated left to right, sliced to
    parts one and two. A process error or timeout in one phase is recorded in
    its stat and the later phases still run; only a report that cannot be read
    propagates, and then nothing after it runs.
  */
  function MeasureExecutionTime(answers: Answers, comm: Command, rn: Runner): (m: Measurement)
    ensures Calls(m.log) <= Plan(comm, rn.defaultTimeout)
    ensures m.stats.Ok? ==> Calls(m.log) == Plan(comm, rn.defaultTimeout)
    ensures forall i :: 0 <= i < |m.log| ==> m.log[i].outcome == Observe(rn.run, m.log[i].call)
  {
    MeasureCalls(answers, comm, rn);
    MeasureObserved(answers, comm, rn);
    Sequence(Inner(Setup, None, comm.setup, rn), Inner(One, Some(answers.one), comm.run, rn),
             Inner(Two, Some(answers.two), comm.run, rn), Inner(Teardown, None, comm.teardown, rn))
  }

  /** The processes the tuple starts follow the plan, all of it when a result is returned. */
  lemma MeasureCalls(answers: Answers, comm: Command, rn: Runner)
    ensures var m := Sequence(Inner(Setup, None, comm.setup, rn), Inner(One, Some(answers.one), comm.run, rn),
                              Inner(Two, Some(answers.two), comm.run, rn), Inner(Teardown, None, comm.teardown, rn));
            Calls(m.log) <= Plan(comm, rn.defaultTimeout)
            && (m.stats.Ok? ==> Calls(m.log) == Plan(comm, rn.defaultTimeout))
  {
    var s := Inner(Setup, None, comm.setup, rn);
    var o := Inner(One, Some(answers.one), comm.run, rn);
    var t := Inner(Two, Some(answers.two), comm.run, rn);
    var d := Inner(Teardown, None, comm.teardown, rn);
    MeasureLog(answers, comm, rn, s, o, t, d);
  }

  /** The processes of the tuple, whichever phases it gets through, ended as the oracle says. */
  lemma MeasureObserved(answers: Answers, comm: Command, rn: Runner)
    ensures Observed(rn.run, Sequence(Inner(Setup, None, comm.setup, rn), Inner(One, Some(answers.one), comm.run, rn),
                                      Inner(Two, Some(answers.two), comm.run, rn), Inner(Teardown, None, comm.teardown, rn)).log)
  {
    PhasesObserved(rn.run, Inner(Setup, None, comm.setup, rn), Inner(One, Some(answers.one), comm.run, rn),
                   Inner(Two, Some(answers.two), comm.run, rn), Inner(Teardown, None, comm.teardown, rn));
  }

  /** Four phases one after another: the first that raised ends the tuple, else parts one's and two's stats. */
  function Sequence(s: Phase, o: Phase, t: Phase, d: Phase): (m: Measurement)
    ensures m.log == s.log || m.log == s.log + o.log || m.log == s.log + o.log + t.log
            || m.log == s.log + o.log + t.log + d.log
    ensures m.stats.Ok? ==> m.log == s.log + o.log + t.log + d.log
  {
    if s.stat.Err? then Measurement(Err(s.stat.fault), s.log)
    else if o.stat.Err? then Measurement(Err(o.stat.fault), s.log + o.log)
    else if t.stat.Err? then Measurement(Err(t.stat.fault), s.log + o.log + t.log)
    else if d.stat.Err? then Measurement(Err(d.stat.fault), s.log + o.log + t.log + d.log)
    else Measurement(Ok(Stats(o.stat.value, t.stat.value)), s.log + o.log + t.log + d.log)
  }

  /** Every process in the log ended as the oracle says it does for its call. */
  predicate Observed(run: (seq<string>, real) -> Completion, log: seq<Execution>) {
    forall i :: 0 <= i < |log| ==> log[i].outcome == Observe(run, log[i].call)
  }

  lemma ObservedAppend(run: (seq<string>, real) -> Completion, a: seq<Execution>, b: seq<Execution>)
    requires Observed(run, a) && Observed(run, b)
    ensures Observed(run, a + b)
  {
    forall i | 0 <= i < |a + b| ensures (a + b)[i].outcome == Observe(run, (a + b)[i].call) {
      if i >= |a| {
        assert (a + b)[i] == b[i - |a|];
      }
    }
  }

  /** Whichever phases the tuple gets through, their processes are the oracle's. */
  lemma PhasesObserved(run: (seq<string>, real) -> Completion, s: Phase, o: Phase, t: Phase, d: Phase)
    requires Observed(run, s.log) && Observed(run, o.log) && Observed(run, t.log) && Observed(run, d.log)
    ensures Observed(run, Sequence(s, o, t, d).log)
  {
    ObservedAppend(run, s.log, o.log);
    ObservedAppend(run, s.log + o.log, t.log);
    ObservedAppend(run, s.log + o.log + t.log, d.log);
  }

  /** The logs of the phases run so far are a prefix of the plan, all of them the whole plan. */
  lemma MeasureLog(answers: Answers, comm: Command, rn: Runner, s: Phase, o: Phase, t: Phase, d: Phase)
    requires s == Inner(Setup, None, comm.setup, rn) && o == Inner(One, Some(answers.one), comm.run, rn)
    requires t == Inner(Two, Some(answers.two), comm.run, rn) && d == Inner(Teardown, None, comm.teardown, rn)
    ensures Calls(s.log) <= Plan(comm, rn.defaultTimeout)
    ensures Calls(s.log + o.log) <= Plan(comm, rn.defaultTimeout)
    ensures Calls(s.log + o.log + t.log) <= Plan(comm, rn.defaultTimeout)
    ensures Calls(s.log + o.log + t.log + d.log) == Plan(comm, rn.defaultTimeout)
  {
    PlanPhases(comm, answers, rn.defaultTimeout);
    CallsAppend(s.log, o.log);
    CallsAppend(s.log + o.log, t.log);
    CallsAppend(s.log + o.log + t.log, d.log);
  }

  predicate NoneRaised(log: seq<Execution>) {
    forall i :: 0 <= i < |log| ==> !log[i].outcome.Raised?
  }

  /** A phase that returned started nothing that raised; one that raised started exactly the process that did. */
  predicate Shaped(p: Phase) {
    (p.stat.Ok? ==> NoneRaised(p.log))
    && (p.stat.Err? ==> |p.log| == 1 && p.log[0].outcome == Raised(p.stat.fault))
  }

  lemma InnerShaped(part: Part, answer: Option<string>, command: seq<string>, rn: Runner)
    ensures Shaped(Inner(part, answer, command, rn))
  {
    var p := Inner(part, answer, command, rn);
    if |p.log| == 1 {
      assert p.stat == Classify(p.log[0].outcome, answer, rn.fmt);
    }
  }

  lemma NoneRaisedAppend(a: seq<Execution>, b: seq<Execution>)
    ensures NoneRaised(a + b) <==> NoneRaised(a) && NoneRaised(b)
  {
    assert forall i :: 0 <= i < |a| ==> (a + b)[i] == a[i];
    assert forall i :: 0 <= i < |b| ==> (a + b)[|a| + i] == b[i];
  }

  /** Phases that did not raise, then one that did: its process is the last, and nothing before it raised. */
  lemma RaisedLast(a: seq<Execution>, p: Phase)
    requires NoneRaised(a) && Shaped(p) && p.stat.Err?
    ensures var log := a + p.log;
            0 < |log| && log[|log| - 1].outcome == Raised(p.stat.fault)
            && forall i :: 0 <= i < |log| - 1 ==> !log[i].outcome.Raised?
  {
    var log := a + p.log;
    assert log[..|log| - 1] == a;
    assert forall i :: 0 <= i < |log| - 1 ==> log[i] == a[i];
  }

  lemma SequenceStops(s: Phase, o: Phase, t: Phase, d: Phase)
    requires Shaped(s) && Shaped(o) && Shaped(t) && Shaped(d)
    ensures var m := Sequence(s, o, t, d);
      (m.stats.Ok? ==> forall i :: 0 <= i < |m.log| ==> !m.log[i].outcome.Raised?)
      && (m.stats.Err? ==> 0 < |m.log| && m.log[|m.log| - 1].outcome == Raised(m.stats.fault)
                           && forall i :: 0 <= i < |m.log| - 1 ==> !m.log[i].outcome.Raised?)
  {
    if s.stat.Err? {
      RaisedLast([], s);
      assert [] + s.log == s.log;
    } else if o.stat.Err? {
      RaisedLast(s.log, o);
    } else if t.stat.Err? {
      NoneRaisedAppend(s.log, o.log);
      RaisedLast(s.log + o.log, t);
    } else if d.stat.Err? {
      NoneRaisedAppend(s.log, o.log);
      NoneRaisedAppend(s.log + o.log, t.log);
      RaisedLast(s.log + o.log + t.log, d);
    } else {
      NoneRaisedAppend(s.log, o.log);
      NoneRaisedAppend(s.log + o.log, t.log);
      NoneRaisedAppend(s.log + o.log + t.log, d.log);
    }
  }

  /**
    Only a report that cannot be read stops the phases: it is the last process
    started, and none before it raised.
  */
  lemma MeasureStops(answers: Answers, comm: Command, rn: Runner)
    ensures var m := MeasureExecutionTime(answers, comm, rn);
      (m.stats.Ok? ==> forall i :: 0 <= i < |m.log| ==> !m.log[i].outcome.Raised?)
      && (m.stats.Err? ==> 0 < |m.log| && m.log[|m.log| - 1].outcome == Raised(m.stats.fault)
                           && forall i :: 0 <= i < |m.log| - 1 ==> !m.log[i].outcome.Raised?)
  {
    InnerShaped(Setup, None, comm.setup, rn);
    InnerShaped(One, Some(answers.one), comm.run, rn);
    InnerShaped(Two, Some(answers.two), comm.run, rn);
    InnerShaped(Teardown, None, comm.teardown, rn);
    SequenceStops(Inner(Setup, None, comm.setup, rn), Inner(One, Some(answers.one), comm.run, rn),
                  Inner(Two, Some(answers.two), comm.run, rn), Inner(Teardown, None, comm.teardown, rn));
  }

  /** When the phases complete, the parts' processes follow setup's and the stats are theirs. */
  lemma SequenceStats(s: Phase, o: Phase, t: Phase, d: Phase)
    requires |o.log| == 1 && |t.log| == 1
    ensures var m := Sequence(s, o, t, d);
      m.stats.Ok? ==> |s.log| + 1 < |m.log| && m.log[|s.log|] == o.log[0] && m.log[|s.log| + 1] == t.log[0]
                      && Ok(m.stats.value.one) == o.stat && Ok(m.stats.value.two) == t.stat
  {
    var m := Sequence(s, o, t, d);
    if m.stats.Ok? {
      assert m.log == s.log + o.log + t.log + d.log;
      assert (s.log + o.log + t.log + d.log)[|s.log|] == o.log[0];
      assert (s.log + o.log + t.log + d.log)[|s.log| + 1] == t.log[0];
    }
  }

  /**
    The two stats returned are those of the part-one and part-two runs, each
    classified against its own answer; setup and teardown only log.
  */
  lemma MeasureStats(answers: Answers, comm: Command, rn: Runner)
    ensures var m := MeasureExecutionTime(answers, comm, rn);
      m.stats.Ok? ==>
        var i := if comm.setup == [] then 0 else 1;
        i + 1 < |m.log|
        && Ok(m.stats.value.one) == Classify(m.log[i].outcome, Some(answers.one), rn.fmt)
        && Ok(m.stats.value.two) == Classify(m.log[i + 1].outcome, Some(answers.two), rn.fmt)
    ensures var m := MeasureExecutionTime(answers, comm, rn);
      m.stats.Ok? ==>
        Ok(m.stats.value.one) == Classify(Observe(rn.run, Call(TimeWrapper + comm.run + ["one"], rn.defaultTimeout)), Some(answers.one), rn.fmt)
        && Ok(m.stats.value.two) == Classify(Observe(rn.run, Call(TimeWrapper + comm.run + ["two"], rn.defaultTimeout)), Some(answers.two), rn.fmt)
  {
    var s := Inner(Setup, None, comm.setup, rn);
    var o := Inner(One, Some(answers.one), comm.run, rn);
    var t := Inner(Two, Some(answers.two), comm.run, rn);
    var d := Inner(Teardown, None, comm.teardown, rn);
    assert |s.log| == if comm.setup == [] then 0 else 1;
    SequenceStats(s, o, t, d);
  }

  /** Only Python has a teardown: the others start two processes, or three with Rust's build. */
  lemma PlanSizes(t: real)
    ensures |Plan(Python, t)| == 4
    ensures |Plan(Rust, t)| == 3
    ensures |Plan(Racket, t)| == 2 && |Plan(OCaml, t)| == 2 && |Plan(FSharp, t)| == 2 && |Plan(Jupyter, t)| == 2
  {
    CommandShapes();
  }

  /** What a stat's notes say happened. */
  datatype Verdict = Answered | WrongAnswer | Finished | ExitedWith(code: int) | OutOfTime

  /** The verdict an outcome that did not raise deserves. */
  function VerdictOf(outcome: Outcome, answer: Option<string>): Verdict
    requires !outcome.Raised?
  {
    match outcome
    case Ran(_, _, out) => if answer.None? then Finished else if out == answer.value then Answered else WrongAnswer
    case ProcessError(code) => ExitedWith(code)
    case TimedOut(_) => OutOfTime
  }

  /** Reads a notes cell back: the empty note, the fixed phrases, or `Error (c)` with an integer c. */
  function ReadNotes(notes: string): Option<Verdict> {
    if |notes| >= 8 && notes[..7] == "Error (" && notes[|notes| - 1] == ')' then
      match ParseInt(notes[7..|notes| - 1])
      case Some(c) => Some(ExitedWith(c))
      case None => None
    else if notes == "" then Some(Answered)
    else if notes == "Different answer" then Some(WrongAnswer)
    else if notes == "Done" then Some(Finished)
    else if notes == "Timeout" then Some(OutOfTime)
    else None
  }

  /** The notes written for a phase say exactly how it went, exit code included. */
  lemma NotesRecordVerdict(outcome: Outcome, answer: Option<string>, fmt: CpuTime -> string)
    requires !outcome.Raised?
    ensures Classify(outcome, answer, fmt).Ok?
    ensures ReadNotes(Classify(outcome, answer, fmt).value.notes) == Some(VerdictOf(outcome, answer))
  {
    if outcome.ProcessError? {
      ReadErrorNote(outcome.returncode);
    }
  }

  /** `Error (c)` reads back as the exit code c. */
  lemma ReadErrorNote(code: int)
    ensures ReadNotes("Error (" + IntToString(code) + ")") == Some(ExitedWith(code))
  {
    ParseIntToString(code);
    assert |IntToString(code)| > 0;
    ReadErrorNoteOf(IntToString(code), code);
  }

  lemma ReadErrorNoteOf(c: string, code: int)
    requires |c| > 0 && ParseInt(c) == Some(code)
    ensures ReadNotes("Error (" + c + ")") == Some(ExitedWith(code))
  {
    var n := "Error (" + c + ")";
    assert |n| >= 8 && n[..7] == "Error (" && n[|n| - 1] == ')' && n[7..|n| - 1] == c;
    ReadNotesError(n);
  }

  lemma ReadNotesError(notes: string)
    requires |notes| >= 8 && notes[..7] == "Error (" && notes[|notes| - 1] == ')'
    ensures ReadNotes(notes) == match ParseInt(notes[7..|notes| - 1])
                                case Some(c) => Some(ExitedWith(c))
                                case None => None
  {
  }
}
