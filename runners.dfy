/**
  The language command table and the instrumented process runner
  (advent_of_action/runners.py). `subprocess.run` itself is the oracle `run`:
  given the argument vector and a timeout it says how the process ended.
*/
module Runners {
  import opened Py

  /** The parts of a day's solution (a `StrEnum`). */
  datatype Part = Setup | One | Two | Teardown {
    /** The member's string value: appended to run commands and written in the report's part column. */
    function Value(): string {
      match this
      case Setup => "setup"
      case One => "one"
      case Two => "two"
      case Teardown => "teardown"
    }
  }

  /** The four values are distinct, and the two parts render as "one" and "two". */
  lemma PartValues()
    ensures One.Value() == "one" && Two.Value() == "two"
    ensures forall p: Part, q: Part :: p.Value() == q.Value() ==> p == q
  {
  }

  /** A language's three command templates. */
  datatype Command = Command(setup: seq<string>, run: seq<string>, teardown: seq<string>)

  const Python := Command(
    ["pip", "install", "-r", "requirements.txt"],
    ["python", "solution.py"],
    ["pip", "uninstall", "-r", "requirements.txt"])

  const Rust := Command(["cargo", "build"], ["cargo", "run", "--quiet"], [])

  const Racket := Command([], ["racket", "solution.rkt"], [])

  const OCaml := Command([], ["ocaml", "solution.ml"], [])

  const FSharp := Command([], ["dotnet", "fsi", "solution.fsx"], [])

  const Jupyter := Command([], ["ipython", "-c", "%run 'solution.ipynb'"], [])

  /** Racket, OCaml, F# and Jupyter only run; Rust also builds; only Python tears down. */
  lemma CommandShapes()
    ensures forall c :: c in {Racket, OCaml, FSharp, Jupyter} ==> c.setup == [] && c.teardown == []
    ensures Rust.setup != [] && Rust.teardown == []
    ensures Python.setup != [] && Python.run != [] && Python.teardown != []
  {
  }

  /** The profiling wrapper every command runs under: peak KB, system and user seconds. */
  const TimeWrapper: seq<string> := ["/usr/bin/time", "-f", "%M,%S,%U"]

  /** One process started: its argument vector and its timeout in seconds. */
  datatype Call = Call(argv: seq<string>, timeout: real)

  /** How `subprocess.run` came back: an exit with the captured streams, or `TimeoutExpired`. */
  datatype Completion = Exited(returncode: int, stdout: string, stderr: string) | Expired

  /** `float(sys) + float(user)`, kept as the two fields because floating point is not modelled. */
  datatype CpuTime = CpuTime(sys: string, user: string)

  /** What `execute_command` returns or raises. */
  datatype Outcome =
    | Ran(kilobytes: int, seconds: CpuTime, stdout: string)
    | ProcessError(returncode: int) // CalledProcessError
    | TimedOut(after: real)         // TimeoutExpired
    | Raised(fault: Fault)          // ValueError while reading the wrapper's report

  datatype Execution = Execution(call: Call, outcome: Outcome)

  /**
    Reads the wrapper's report `kb,sys,user` from stderr. It must be exactly
    three comma-separated fields, the first an integer; the stdout returned is
    the captured one with surrounding whitespace stripped.
  */
  function ReadReport(stderr: string, stdout: string): (o: Outcome)
    ensures o.Ran? || o.Raised?
    ensures o.Ran? ==> multiset(stderr)[','] == 2 && o.stdout == Strip(stdout)
    ensures multiset(stderr)[','] != 2 ==> o == Raised(UnpackMismatch(3, multiset(stderr)[','] + 1))
  {
    var fields := Split(stderr, ",");
    SplitCountsCommas(stderr);
    if |fields| != 3 then Raised(UnpackMismatch(3, |fields|))
    else
      var kb := ParseInt(fields[0]);
      if kb.None? then Raised(InvalidLiteral(fields[0]))
      else Ran(kb.value, CpuTime(fields[1], fields[2]), Strip(stdout))
  }

  /**
    A report that was read is the three comma-free fields joined by commas:
    the integer's text, then the system and the user seconds.
  */
  lemma ReadReportFields(stderr: string, stdout: string)
    requires ReadReport(stderr, stdout).Ran?
    ensures var o := ReadReport(stderr, stdout);
      exists kb :: ParseInt(kb) == Some(o.kilobytes) && ',' !in kb
        && ',' !in o.seconds.sys && ',' !in o.seconds.user
        && stderr == kb + "," + o.seconds.sys + "," + o.seconds.user
  {
    var o := ReadReport(stderr, stdout);
    var f := Split(stderr, ",");
    SplitCountsCommas(stderr);
    assert |f| == 3;
    assert o.seconds == CpuTime(f[1], f[2]);
    assert ParseInt(f[0]) == Some(o.kilobytes);
    JoinThree(f);
    assert ',' !in f[0] && ',' !in f[1] && ',' !in f[2];
  }

  lemma JoinThree(f: seq<string>)
    requires |f| == 3
    ensures Join(f, ",") == f[0] + "," + f[1] + "," + f[2]
  {
    assert f[1..][1..] == [f[2]];
    assert Join(f[1..], ",") == f[1] + "," + f[2];
    assert Join(f, ",") == f[0] + "," + (f[1] + "," + f[2]);
  }

  /** Splitting on "," gives one field more than there are commas, none of them holding a comma. */
  lemma {:induction false} SplitCountsCommas(s: string)
    ensures |Split(s, ",")| == multiset(s)[','] + 1
    ensures forall k :: 0 <= k < |Split(s, ",")| ==> ',' !in Split(s, ",")[k]
    decreases |s|
  {
    var i := Find(s, ",", 0);
    forall k | 0 <= k < |Split(s, ",")| ensures ',' !in Split(s, ",")[k] {
      FindCharAbsent(Split(s, ",")[k], ',');
    }
    if i == -1 {
      FindCharAbsent(s, ',');
    } else {
      assert s[i..i + 1] == ",";
      FindCharAbsent(s[..i], ',');
      assert s == s[..i] + "," + s[i + 1..];
      SplitCountsCommas(s[i + 1..]);
      assert Split(s, ",") == [s[..i]] + Split(s[i + 1..], ",");
      assert multiset(s) == multiset(s[..i]) + multiset(",") + multiset(s[i + 1..]);
    }
  }

  /** Splitting a comma-free field followed by a comma peels that field off. */
  lemma PeelField(a: string, b: string)
    requires ',' !in a
    ensures Split(a + "," + b, ",") == [a] + Split(b, ",")
  {
    var s := a + "," + b;
    forall i | 0 <= i < |a| ensures !At(s, ",", i) {
      assert s[i..i + 1] == [a[i]];
    }
    SplitPeel(a, ",", b);
  }

  /** What the wrapper writes for a finished process is read back as exactly those values. */
  lemma ReadReportOfWrapper(kb: int, sys: string, user: string, stdout: string)
    requires ',' !in sys && ',' !in user
    ensures ReadReport(IntToString(kb) + "," + sys + "," + user, stdout) == Ran(kb, CpuTime(sys, user), Strip(stdout))
  {
    var k := IntToString(kb);
    ParseIntToString(kb);
    IntToStringHasNoComma(kb);
    SplitThree(k, sys, user);
  }

  /** Three comma-free fields joined by commas split back into those fields. */
  lemma SplitThree(a: string, b: string, c: string)
    requires ',' !in a && ',' !in b && ',' !in c
    ensures Split(a + "," + b + "," + c, ",") == [a, b, c]
  {
    SplitTwo(b, c);
    Regroup5(a, ",", b, ",", c);
    PeelField(a, b + "," + c);
  }

  /** Two comma-free fields joined by a comma split back into those fields. */
  lemma SplitTwo(b: string, c: string)
    requires ',' !in b && ',' !in c
    ensures Split(b + "," + c, ",") == [b, c]
  {
    PeelField(b, c);
    FindCharAbsent(c, ',');
    SplitWhole(c, ",");
  }

  lemma IntToStringHasNoComma(n: int)
    ensures ',' !in IntToString(n)
  {
    var d := NatToString(if n < 0 then -n else n);
    assert ',' !in d by {
      forall i | 0 <= i < |d| ensures d[i] != ',' { assert IsDigit(d[i]); }
    }
    if n < 0 {
      assert IntToString(n) == "-" + d;
    }
  }

  /**
    How a started process is seen by `execute_command`: `TimeoutExpired`
    carries the timeout, a non-zero exit is `CalledProcessError` (`check=True`),
    and a clean exit has its wrapper report read.
  */
  function Observe(run: (seq<string>, real) -> Completion, call: Call): (o: Outcome)
    ensures run(call.argv, call.timeout).Expired? ==> o == TimedOut(call.timeout)
    ensures run(call.argv, call.timeout).Exited? ==>
              var c := run(call.argv, call.timeout);
              if c.returncode != 0 then o == ProcessError(c.returncode)
              else o == ReadReport(c.stderr, c.stdout)
  {
    match run(call.argv, call.timeout)
    case Expired => TimedOut(call.timeout)
    case Exited(code, out, err) => if code != 0 then ProcessError(code) else ReadReport(err, out)
  }

  /**
    `execute_command(command, timeout)`: starts the wrapper with the user's
    command unchanged after it, under the given timeout or else the configured
    default, and observes how the process ended.
  */
  function ExecuteCommand(command: seq<string>, timeout: Option<real>, defaultTimeout: real,
                          run: (seq<string>, real) -> Completion): (e: Execution)
    ensures e.call.argv == TimeWrapper + command
    ensures timeout.Some? ==> e.call.timeout == timeout.value
    ensures timeout.None? ==> e.call.timeout == defaultTimeout
    ensures e.outcome == Observe(run, e.call)
  {
    var t := if timeout.Some? then timeout.value else defaultTimeout;
    var call := Call(TimeWrapper + command, t);
    Execution(call, Observe(run, call))
  }
}
