/**
  The driver of advent_of_action/main.py: the `RUNTIMES` table and `main`,
  which reads the results already in the README, measures every solution
  not yet there whose language has a runtime, and writes the merged table
  back. The directory tree is given as values (the day directories and their
  solution directories, already sorted, each solution saying whether it holds
  an `.optout` file); running a process is the oracle `run` of the `Env`,
  which also sees which solution directory the process runs in.
*/
module Harness {
  import opened Py
  import opened Runners
  import opened Records
  import opened Measure
  import opened Report

  /** `RUNTIMES`: the languages that are run, and the commands of each. */
  const Runtimes: map<string, Command> := map[
    "python" := Python,
    "racket" := Racket,
    "rust" := Rust,
    "fsharp" := FSharp,
    "ocaml" := OCaml,
    "jupyter" := Jupyter
  ]

  /** Exactly six languages have a runtime, each with its own command table. */
  lemma RuntimesTable()
    ensures Runtimes.Keys == {"python", "racket", "rust", "fsharp", "ocaml", "jupyter"}
    ensures Runtimes["python"] == Python && Runtimes["racket"] == Racket && Runtimes["rust"] == Rust
    ensures Runtimes["fsharp"] == FSharp && Runtimes["ocaml"] == OCaml && Runtimes["jupyter"] == Jupyter
  {
  }

  /** A `<language>_<person>` directory, and whether an `.optout` file is among its files. */
  datatype SolutionDir = SolutionDir(name: string, optedOut: bool)

  /** A `day_<nn>` directory: its name, the answers `get_answers` gives for it, and its solutions. */
  datatype DayDir = DayDir(name: string, answers: Answers, solutions: seq<SolutionDir>)

  /**
    What `main` runs against: the configured default timeout, the process
    oracle (given the day's and the solution's directory names, the argument
    vector and the timeout) and the rendering of seconds.
  */
  datatype Env = Env(defaultTimeout: real, run: (string, string, seq<string>, real) -> Completion,
                     fmt: CpuTime -> string)

  /** The runner of one solution: processes start in that solution's directory. */
  function RunnerIn(env: Env, day: DayDir, sol: SolutionDir): Runner {
    Runner(env.defaultTimeout, (argv: seq<string>, t: real) => env.run(day.name, sol.name, argv, t), env.fmt)
  }

  /** `day_dir.parts[0][4:]`: the day is the name after `day_`. */
  function DayOf(name: string): (d: string)
    ensures |name| >= 4 ==> name == name[..4] + d
    ensures |name| < 4 ==> d == ""
  {
    Slice(name, 4, |name|)
  }

  /**
    `directory.split("_", maxsplit=1)` unpacked into language and person:
    the language is the text before the first underscore, and a name without
    one cannot be unpacked into two.
  */
  function SplitDirectory(name: string): (r: Result<(string, string)>)
    ensures r.Err? <==> '_' !in name
    ensures r.Err? ==> r.fault == UnpackMismatch(2, 1)
    ensures r.Ok? ==> r.value.0 + "_" + r.value.1 == name && '_' !in r.value.0
  {
    var parts := SplitOnce(name, "_");
    FindCharAbsent(name, '_');
    if |parts| != 2 then Err(UnpackMismatch(2, |parts|))
    else
      FindCharAbsent(parts[0], '_');
      Ok((parts[0], parts[1]))
  }

  /** The run a solution directory stands for, when its name can be unpacked. */
  function RunOf(day: DayDir, sol: SolutionDir): (r: Result<Run>)
    ensures r.Err? <==> '_' !in sol.name
    ensures r.Err? ==> r.fault == UnpackMismatch(2, 1)
    ensures r.Ok? ==> r.value.day == DayOf(day.name) && '_' !in r.value.language
                      && r.value.language + "_" + r.value.person == sol.name
  {
    match SplitDirectory(sol.name)
    case Err(f) => Err(f)
    case Ok((language, person)) => Ok(Run(DayOf(day.name), language, person))
  }

  /** Whether `main` measures a solution: not opted out, not already in the results, and its language has a runtime. */
  predicate Selected(sol: SolutionDir, run: Run, results: Results) {
    !sol.optedOut && run !in Keys(results) && run.language in Runtimes
  }

  /** A selected solution's run is a new key: storing its stats appends them and keeps the dict. */
  lemma SelectedAppends(sol: SolutionDir, run: Run, results: Results, stats: Stats)
    requires Selected(sol, run, results)
    ensures Put(results, run, stats) == results + [Entry(run, stats)]
    ensures IsDict(results) ==> IsDict(results + [Entry(run, stats)])
  {
  }

  /** What measuring a solution gives. */
  function MeasureSolution(env: Env, day: DayDir, sol: SolutionDir, language: string): Result<Stats>
    requires language in Runtimes
  {
    MeasureExecutionTime(day.answers, Runtimes[language], RunnerIn(env, day, sol)).stats
  }

  /**
    One pass of the inner loop of `main`. An opted-out solution is skipped
    before its name is split; a selected one is measured and its stats stored
    under a new key at the end; any other is skipped. A report that cannot be
    read, or a name that cannot be unpacked, ends `main` with that error.
  */
  function Visit(env: Env, day: DayDir, sol: SolutionDir, results: Results): (r: Result<Results>)
    ensures sol.optedOut ==> r == Ok(results)
    ensures !sol.optedOut && RunOf(day, sol).Err? ==> r == Err(RunOf(day, sol).fault)
    ensures RunOf(day, sol).Ok? && !Selected(sol, RunOf(day, sol).value, results) ==> r == Ok(results)
    ensures RunOf(day, sol).Ok? && Selected(sol, RunOf(day, sol).value, results) ==>
              var run := RunOf(day, sol).value;
              var stats := MeasureSolution(env, day, sol, run.language);
              r == if stats.Err? then Err(stats.fault) else Ok(results + [Entry(run, stats.value)])
  {
    if sol.optedOut then Ok(results)
    else
      match RunOf(day, sol)
      case Err(f) => Err(f)
      case Ok(run) =>
        if run !in Keys(results) && run.language in Runtimes then
          var stats := MeasureSolution(env, day, sol, run.language);
          if stats.Err? then Err(stats.fault) else Ok(Put(results, run, stats.value))
        else Ok(results)
  }

  /** The inner loop of `main` over one day's solutions, from some solution on. */
  function VisitDay(env: Env, day: DayDir, sols: seq<SolutionDir>, results: Results): (r: Result<Results>)
    ensures r.Ok? ==> |results| <= |r.value| <= |results| + |sols| && r.value[..|results|] == results
    decreases |sols|
  {
    if sols == [] then Ok(results)
    else
      match Visit(env, day, sols[0], results)
      case Err(f) => Err(f)
      case Ok(next) =>
        VisitPrefix(env, day, sols[0], results);
        var r := VisitDay(env, day, sols[1..], next);
        if r.Ok? then PrefixStep(results, next, r.value); r else r
  }

  /** One visit keeps the results as a prefix and adds at most one entry. */
  lemma VisitPrefix(env: Env, day: DayDir, sol: SolutionDir, results: Results)
    ensures var r := Visit(env, day, sol, results);
            r.Ok? ==> |results| <= |r.value| <= |results| + 1 && r.value[..|results|] == results
  {
    var r := Visit(env, day, sol, results);
    if r.Ok? && r.value != results {
      var run := RunOf(day, sol).value;
      var stats := MeasureSolution(env, day, sol, run.language);
      assert r.value == results + [Entry(run, stats.value)];
      assert r.value[..|results|] == results;
    }
  }

  lemma PrefixStep<T>(a: seq<T>, b: seq<T>, c: seq<T>)
    requires |b| >= |a| && b[..|a|] == a
    requires |c| >= |b| && c[..|b|] == b
    ensures |c| >= |a| && c[..|a|] == a
  {
    assert c[..|a|] == c[..|b|][..|a|];
  }

  /** The outer loop of `main` over the days, from some day on. */
  function VisitDays(env: Env, days: seq<DayDir>, results: Results): (r: Result<Results>)
    ensures r.Ok? ==> |results| <= |r.value| && r.value[..|results|] == results
    decreases |days|
  {
    if days == [] then Ok(results)
    else
      match VisitDay(env, days[0], days[0].solutions, results)
      case Err(f) => Err(f)
      case Ok(next) =>
        var r := VisitDays(env, days[1..], next);
        if r.Ok? then PrefixStep(results, next, r.value); r else r
  }

  /** The days still to visit once the current day's loop has ended with `r`. */
  function ThenDays(env: Env, r: Result<Results>, days: seq<DayDir>): Result<Results> {
    match r
    case Err(f) => Err(f)
    case Ok(results) => VisitDays(env, days, results)
  }

  /**
    `main` on the README's text: the results already there, then every day
    visited in turn, then the results written back. What it returns is the
    new text of the README, or the error that ended it.
  */
  function Main(env: Env, doc: string, days: seq<DayDir>): (r: Result<string>)
    ensures ReadExisting(doc).Err? ==> r == Err(ReadExisting(doc).fault)
    ensures ReadExisting(doc).Ok? && VisitDays(env, days, ReadExisting(doc).value).Err? ==>
              r == Err(VisitDays(env, days, ReadExisting(doc).value).fault)
    ensures r.Ok? ==> ReadExisting(doc).Ok? && VisitDays(env, days, ReadExisting(doc).value).Ok?
  {
    match ReadExisting(doc)
    case Err(f) => Err(f)
    case Ok(prior) =>
      match VisitDays(env, days, prior)
      case Err(f) => Err(f)
      case Ok(results) => WriteResults(doc, results)
  }

  /** `main` as the source writes it: `results` filled in place by a loop over the days and their solutions. */
  method RunAll(env: Env, doc: string, days: seq<DayDir>) returns (r: Result<string>)
    ensures r == Main(env, doc, days)
  {
    var existing := ReadExisting(doc);
    if existing.Err? {
      return Err(existing.fault);
    }
    var results := existing.value;
    ghost var goal := VisitDays(env, days, results);
    var i := 0;
    while i < |days|
      invariant i <= |days|
      invariant VisitDays(env, days[i..], results) == goal
    {
      var day := days[i];
      DaysStep(env, days, i, results);
      var j := 0;
      while j < |day.solutions|
        invariant j <= |day.solutions|
        invariant ThenDays(env, VisitDay(env, day, day.solutions[j..], results), days[i + 1..]) == goal
      {
        var sol := day.solutions[j];
        ghost var before := results;
        ghost var visited := Visit(env, day, sol, results);
        if !sol.optedOut {
          var run := RunOf(day, sol);
          if run.Err? {
            return Err(run.fault);
          }
          var key := run.value;
          if key !in Keys(results) && key.language in Runtimes {
            var stats := MeasureSolution(env, day, sol, key.language);
            if stats.Err? {
              return Err(stats.fault);
            }
            results := Put(results, key, stats.value);
          }
        }
        assert visited == Ok(results);
        SolutionsStep(env, day, j, before, results);
        j := j + 1;
      }
      assert day.solutions[j..] == [];
      i := i + 1;
    }
    assert days[i..] == [];
    r := WriteResults(doc, results);
  }

  /** The outer loop from day i on: day i's loop, then the days after it. */
  lemma DaysStep(env: Env, days: seq<DayDir>, i: nat, results: Results)
    requires i < |days|
    ensures VisitDays(env, days[i..], results)
         == ThenDays(env, VisitDay(env, days[i], days[i].solutions[0..], results), days[i + 1..])
  {
    assert days[i..][0] == days[i] && days[i..][1..] == days[i + 1..];
    assert days[i].solutions[0..] == days[i].solutions;
  }

  /** One day's loop from solution j on: a visit of solution j, then the rest. */
  lemma SolutionsStep(env: Env, day: DayDir, j: nat, results: Results, next: Results)
    requires j < |day.solutions| && Visit(env, day, day.solutions[j], results) == Ok(next)
    ensures VisitDay(env, day, day.solutions[j..], results) == VisitDay(env, day, day.solutions[j + 1..], next)
  {
    assert day.solutions[j..][0] == day.solutions[j] && day.solutions[j..][1..] == day.solutions[j + 1..];
  }

  // ----- what main promises ----------------------------------------------

  /** The solution directory a new entry was measured in. */
  predicate FromSolution(env: Env, day: DayDir, sol: SolutionDir, e: Entry) {
    !sol.optedOut && RunOf(day, sol) == Ok(e.key) && e.key.language in Runtimes
    && MeasureSolution(env, day, sol, e.key.language) == Ok(e.stats)
  }

  /** One of these solutions of the day produced this entry. */
  predicate MeasuredIn(env: Env, day: DayDir, sols: seq<SolutionDir>, e: Entry) {
    exists sol :: sol in sols && FromSolution(env, day, sol, e)
  }

  /** Some solution of one of these days produced this entry. */
  predicate Sourced(env: Env, days: seq<DayDir>, e: Entry) {
    exists day :: day in days && MeasuredIn(env, day, day.solutions, e)
  }

  /**
    Results only grow by entries appended at the end: every entry held before
    keeps its place and its stats (nothing is measured twice), the keys stay
    distinct, and every new entry was measured in a solution of these days.
  */
  lemma {:induction false} VisitDaysGrows(env: Env, days: seq<DayDir>, results: Results)
    requires IsDict(results)
    ensures var r := VisitDays(env, days, results);
            r.Ok? ==> IsDict(r.value) && |r.value| >= |results| && r.value[..|results|] == results
                      && forall k :: |results| <= k < |r.value| ==> Sourced(env, days, r.value[k])
    decreases |days|
  {
    if days != [] {
      var d := days[0];
      VisitDayGrows(env, d, d.solutions, results);
      var first := VisitDay(env, d, d.solutions, results);
      if first.Ok? {
        var next := first.value;
        VisitDaysGrows(env, days[1..], next);
        var r := VisitDays(env, days, results);
        assert r == VisitDays(env, days[1..], next);
        if r.Ok? {
          PrefixStep(results, next, r.value);
          forall k | |results| <= k < |r.value| ensures Sourced(env, days, r.value[k]) {
            SourcedCons(env, days, r.value[k]);
            if k < |next| {
              assert r.value[k] == next[k];
            }
          }
        }
      }
    }
  }

  /** The same for one day's loop over some of its solutions. */
  lemma {:induction false} VisitDayGrows(env: Env, day: DayDir, sols: seq<SolutionDir>, results: Results)
    requires IsDict(results)
    ensures var r := VisitDay(env, day, sols, results);
            r.Ok? ==> IsDict(r.value) && |r.value| >= |results| && r.value[..|results|] == results
                      && forall k :: |results| <= k < |r.value| ==> MeasuredIn(env, day, sols, r.value[k])
    decreases |sols|
  {
    if sols != [] {
      var v := Visit(env, day, sols[0], results);
      VisitOnce(env, day, sols[0], results);
      if v.Ok? {
        var next := v.value;
        VisitDayGrows(env, day, sols[1..], next);
        var r := VisitDay(env, day, sols, results);
        assert r == VisitDay(env, day, sols[1..], next);
        if r.Ok? {
          PrefixStep(results, next, r.value);
          forall k | |results| <= k < |r.value| ensures MeasuredIn(env, day, sols, r.value[k]) {
            MeasuredInCons(env, day, sols, r.value[k]);
            if k < |next| {
              assert r.value[k] == next[k];
            }
          }
        }
      }
    }
  }

  lemma MeasuredInCons(env: Env, day: DayDir, sols: seq<SolutionDir>, e: Entry)
    requires sols != []
    ensures FromSolution(env, day, sols[0], e) ==> MeasuredIn(env, day, sols, e)
    ensures MeasuredIn(env, day, sols[1..], e) ==> MeasuredIn(env, day, sols, e)
  {
    if MeasuredIn(env, day, sols[1..], e) {
      var sol :| sol in sols[1..] && FromSolution(env, day, sol, e);
      assert sol in sols;
    }
  }

  lemma SourcedCons(env: Env, days: seq<DayDir>, e: Entry)
    requires days != []
    ensures MeasuredIn(env, days[0], days[0].solutions, e) ==> Sourced(env, days, e)
    ensures Sourced(env, days[1..], e) ==> Sourced(env, days, e)
  {
    if Sourced(env, days[1..], e) {
      var day :| day in days[1..] && MeasuredIn(env, day, day.solutions, e);
      assert day in days;
    }
  }

  /** One visit keeps the dict and appends at most the entry measured for that solution. */
  lemma VisitOnce(env: Env, day: DayDir, sol: SolutionDir, results: Results)
    requires IsDict(results)
    ensures var r := Visit(env, day, sol, results);
            r.Ok? ==> IsDict(r.value) && (r.value == results
                      || (|r.value| == |results| + 1 && r.value[..|results|] == results
                          && FromSolution(env, day, sol, r.value[|results|])))
  {
    var r := Visit(env, day, sol, results);
    if r.Ok? && r.value != results {
      var run := RunOf(day, sol).value;
      var stats := MeasureSolution(env, day, sol, run.language);
      assert r.value == results + [Entry(run, stats.value)];
      assert r.value[..|results|] == results;
      KeysAppend(results, Entry(run, stats.value));
    }
  }

  /**
    Nothing is missed: every solution that is not opted out, whose name can
    be unpacked and whose language has a runtime, has its run among the
    results when `main` goes through.
  */
  lemma {:induction false} VisitDaysComplete(env: Env, days: seq<DayDir>, results: Results, i: nat, j: nat)
    requires IsDict(results)
    requires i < |days| && j < |days[i].solutions|
    requires !days[i].solutions[j].optedOut && RunOf(days[i], days[i].solutions[j]).Ok?
    requires RunOf(days[i], days[i].solutions[j]).value.language in Runtimes
    requires VisitDays(env, days, results).Ok?
    ensures RunOf(days[i], days[i].solutions[j]).value in Keys(VisitDays(env, days, results).value)
    decreases |days|
  {
    var d := days[0];
    var first := VisitDay(env, d, d.solutions, results);
    VisitDayGrows(env, d, d.solutions, results);
    var next := first.value;
    VisitDaysGrows(env, days[1..], next);
    var r := VisitDays(env, days[1..], next).value;
    if i == 0 {
      VisitDayComplete(env, d, d.solutions, results, j);
      KeptKey(next, r, RunOf(days[i], days[i].solutions[j]).value);
    } else {
      assert days[1..][i - 1] == days[i];
      VisitDaysComplete(env, days[1..], next, i - 1, j);
    }
  }

  lemma {:induction false} VisitDayComplete(env: Env, day: DayDir, sols: seq<SolutionDir>, results: Results, j: nat)
    requires IsDict(results)
    requires j < |sols|
    requires !sols[j].optedOut && RunOf(day, sols[j]).Ok? && RunOf(day, sols[j]).value.language in Runtimes
    requires VisitDay(env, day, sols, results).Ok?
    ensures RunOf(day, sols[j]).value in Keys(VisitDay(env, day, sols, results).value)
    decreases |sols|
  {
    var next := Visit(env, day, sols[0], results).value;
    VisitOnce(env, day, sols[0], results);
    var rest := VisitDay(env, day, sols[1..], next);
    if j == 0 {
      var run := RunOf(day, sols[0]).value;
      assert run in Keys(next) by {
        if run !in Keys(results) {
          KeysAppend(results, Entry(run, MeasureSolution(env, day, sols[0], run.language).value));
        }
      }
      VisitDayGrows(env, day, sols[1..], next);
      KeptKey(next, rest.value, run);
    } else {
      assert sols[1..][j - 1] == sols[j];
      VisitDayComplete(env, day, sols[1..], next, j - 1);
    }
  }

  /** A key of a prefix is a key of the whole. */
  lemma KeptKey(prefix: Results, whole: Results, k: Run)
    requires |whole| >= |prefix| && whole[..|prefix|] == prefix
    requires k in Keys(prefix)
    ensures k in Keys(whole)
  {
    var i :| 0 <= i < |prefix| && Keys(prefix)[i] == k;
    assert whole[i] == prefix[i];
  }

  /**
    What `main` leaves in the README: reading it back gives exactly the results
    it ended with, the old ones first and the newly measured ones after them
    in the order they were measured, because the second merge in
    `write_results` only merges the old results with an extension of themselves.
  */
  lemma MainReadsBack(env: Env, doc: string, days: seq<DayDir>)
    requires ReadExisting(doc).Ok? && VisitDays(env, days, ReadExisting(doc).value).Ok?
    requires WritableOver(doc, VisitDays(env, days, ReadExisting(doc).value).value)
    ensures Main(env, doc, days).Ok?
    ensures ReadExisting(Main(env, doc, days).value) == VisitDays(env, days, ReadExisting(doc).value)
  {
    var prior := ReadExisting(doc).value;
    var R := VisitDays(env, days, prior).value;
    MainWrites(env, doc, days);
    ExtensionMerge(env, days, prior);
    WriteThenRead(doc, R);
  }

  /** When the old results and the loop go through, `main` is the write of what the loop ended with. */
  lemma MainWrites(env: Env, doc: string, days: seq<DayDir>)
    requires ReadExisting(doc).Ok? && VisitDays(env, days, ReadExisting(doc).value).Ok?
    ensures Main(env, doc, days) == WriteResults(doc, VisitDays(env, days, ReadExisting(doc).value).value)
  {
  }

  /** Merging the old results with what the loop ended with gives the latter. */
  lemma ExtensionMerge(env: Env, days: seq<DayDir>, prior: Results)
    requires IsDict(prior) && VisitDays(env, days, prior).Ok?
    ensures Merge(prior, VisitDays(env, days, prior).value) == VisitDays(env, days, prior).value
  {
    var R := VisitDays(env, days, prior).value;
    VisitDaysGrows(env, days, prior);
    MergeOntoPrefix(prior, R);
  }

  /** A README without a "## Stats" section gets the table of every result appended to it. */
  lemma MainAppendsTable(env: Env, doc: string, days: seq<DayDir>)
    requires Find(doc, StatsHeading, 0) == -1
    requires VisitDays(env, days, []).Ok?
    ensures Main(env, doc, days) == Ok(doc + RenderTable(VisitDays(env, days, []).value))
  {
    assert ReadExisting(doc) == Ok([]);
  }
}
