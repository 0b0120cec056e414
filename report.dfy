/**
  The README's "## Stats" section (advent_of_action/main.py:73-123): the
  Markdown pipe table that `to_table` writes and `from_table` reads, and the
  splice `write_results` makes of it into the rest of the document.
*/
module Report {
  import opened Py
  import opened Runners
  import opened Records

  // ----- reading: from_table ----------------------------------------------

  /** A table line's cells: `line[1:-1].split(" | ")`. */
  function Cells(line: string): seq<string> {
    Split(Slice(line, 1, -1), " | ")
  }

  /** A line's seven cells, unpacked: the run and the stat stripped, the part cell as it is. */
  datatype Row = Row(run: Run, part: string, stat: Stat)

  function RowOf(c: seq<string>): Row
    requires |c| == 7
  {
    Row(Run(Strip(c[0]), Strip(c[1]), Strip(c[2])), c[3], Stat(Strip(c[4]), Strip(c[5]), Strip(c[6])))
  }

  /**
    The loop of `from_table` from some line on, with `part_one` and `results`
    as they stand. An empty line ends it. A line must have seven cells
    (ValueError from the unpacking otherwise); a "one" row takes the place of
    `part_one`, a "two" row stores the pair under the run (the `assert` fails
    when no "one" row came before), and any other part raises ValueError.
  */
  function ParseRows(lines: seq<string>, partOne: Option<Stat>, acc: Results): (r: Result<Results>)
    ensures r.Ok? && IsDict(acc) ==> IsDict(r.value)
    ensures r.Err? && r.fault.UnknownPart? ==> r.fault.part != "one" && r.fault.part != "two"
    ensures r.Err? ==> r.fault.UnpackMismatch? || r.fault.UnknownPart? || r.fault == MissingPartOne
    decreases |lines|
  {
    if lines == [] || lines[0] == "" then Ok(acc)
    else
      var c := Cells(lines[0]);
      if |c| != 7 then Err(UnpackMismatch(7, |c|))
      else
        var row := RowOf(c);
        if row.part == "one" then ParseRows(lines[1..], Some(row.stat), acc)
        else if row.part == "two" then
          if partOne.None? then Err(MissingPartOne)
          else ParseRows(lines[1..], partOne, Put(acc, row.run, Stats(partOne.value, row.stat)))
        else Err(UnknownPart(row.part))
  }

  /**
    `from_table(table)`: the rows after the first six lines. The results form
    a dict, a table of six lines or fewer holds none, and reading fails only
    in the three ways the row loop can.
  */
  function ParseTable(table: string): (r: Result<Results>)
    ensures r.Ok? ==> IsDict(r.value)
    ensures |SplitLines(table)| <= 6 ==> r == Ok([])
    ensures r.Err? ==> r.fault.UnpackMismatch? || r.fault.UnknownPart? || r.fault == MissingPartOne
  {
    TableRows(SplitLines(table))
  }

  /** The loop of `from_table` over `lines[6:]`. */
  function TableRows(lines: seq<string>): (r: Result<Results>)
    ensures r.Ok? ==> IsDict(r.value)
    ensures |lines| <= 6 ==> r == Ok([])
    ensures r.Err? ==> r.fault.UnpackMismatch? || r.fault.UnknownPart? || r.fault == MissingPartOne
  {
    assert |lines| <= 6 ==> Slice(lines, 6, |lines|) == [];
    ParseRows(Slice(lines, 6, |lines|), None, [])
  }

  /** `from_table` as the source writes it: a loop that fills `results` and updates `part_one`. */
  method FromTable(table: string) returns (r: Result<Results>)
    ensures r == ParseTable(table)
  {
    var all := SplitLines(table);
    var lines := Slice(all, 6, |all|);
    var results: Results := [];
    var partOne: Option<Stat> := None;
    var i := 0;
    while i < |lines|
      invariant i <= |lines|
      invariant ParseRows(lines[i..], partOne, results) == ParseTable(table)
    {
      var line := lines[i];
      assert lines[i..][0] == line && lines[i..][1..] == lines[i + 1..];
      if line == "" {
        break;
      }
      var c := Cells(line);
      if |c| != 7 {
        return Err(UnpackMismatch(7, |c|));
      }
      var row := RowOf(c);
      ParseRowsStep(lines[i..], partOne, results);
      if row.part == "one" {
        partOne := Some(row.stat);
      } else if row.part == "two" {
        if partOne.None? {
          return Err(MissingPartOne);
        }
        results := Put(results, row.run, Stats(partOne.value, row.stat));
      } else {
        return Err(UnknownPart(row.part));
      }
      i := i + 1;
    }
    return Ok(results);
  }

  // ----- writing: to_table ------------------------------------------------

  /** `"| day | language | who | part | time (s) | mem (KB) | notes |"`, a row in shape. */
  const HeaderRow := RowText(Run("day", "language", "who"), "part", Stat("time (s)", "mem (KB)", "notes"))

  /** `"| --- | --- | --- | --- | --- | --- | --- |"` */
  const RuleRow := RowText(Run("---", "---", "---"), "---", Stat("---", "---", "---"))

  /** The heading and the table's first two rows. */
  const Preamble := "\n\n## Stats\n\n" + HeaderRow + "\n" + RuleRow + "\n"

  /** The six lines `from_table` skips are exactly the ones `Preamble` writes. */
  const PreambleLines: seq<string> := ["", "", "## Stats", "", HeaderRow, RuleRow]

  /** One table row, without its line break. */
  function RowText(run: Run, part: string, stat: Stat): string {
    "| " + run.day + " | " + run.language + " | " + run.person + " | " + part + " | "
    + stat.seconds + " | " + stat.kilobytes + " | " + stat.notes + " |"
  }

  /** A run's two rows. */
  function EntryLines(e: Entry): seq<string> {
    [RowText(e.key, One.Value(), e.stats.one), RowText(e.key, Two.Value(), e.stats.two)]
  }

  /** The rows of the table: two per run, part one first, in the mapping's own order. */
  function RowLines(R: Results): (ls: seq<string>)
    ensures |ls| == 2 * |R|
  {
    if R == [] then [] else EntryLines(R[0]) + RowLines(R[1..])
  }

  /** `to_table(results)` */
  function RenderTable(R: Results): string {
    Preamble + Unlines(RowLines(R))
  }

  /**
    The table starts with the heading and the two header rows, holds nothing
    more when there are no results, and ends with a line break.
  */
  lemma RenderTableShape(R: Results)
    ensures |RenderTable(R)| >= |Preamble| && RenderTable(R)[..|Preamble|] == Preamble
    ensures RenderTable(R)[|RenderTable(R)| - 1] == '\n'
    ensures R == [] <==> RenderTable(R) == Preamble
  {
    UnlinesEnds(RowLines(R));
  }

  /** Run i's rows are lines 2i and 2i+1 of the rows, part one first: no run is reordered. */
  lemma {:induction false} RowLinesAt(R: Results, i: nat)
    requires i < |R|
    ensures RowLines(R)[2 * i] == RowText(R[i].key, "one", R[i].stats.one)
    ensures RowLines(R)[2 * i + 1] == RowText(R[i].key, "two", R[i].stats.two)
    decreases i
  {
    var rest := RowLines(R[1..]);
    assert RowLines(R) == EntryLines(R[0]) + rest;
    if i > 0 {
      RowLinesAt(R[1..], i - 1);
      assert R[1..][i - 1] == R[i];
      AfterPair(EntryLines(R[0]), rest, 2 * (i - 1));
      AfterPair(EntryLines(R[0]), rest, 2 * (i - 1) + 1);
    }
  }

  lemma AfterPair<T>(x: seq<T>, y: seq<T>, k: nat)
    requires |x| == 2 && k < |y|
    ensures (x + y)[k + 2] == y[k]
  {
  }

  lemma {:induction false} RowLinesSnoc(R: Results, e: Entry)
    ensures RowLines(R + [e]) == RowLines(R) + EntryLines(e)
    decreases |R|
  {
    if R == [] {
      assert [] + [e] == [e];
      assert RowLines([e]) == EntryLines(e) + RowLines([]);
    } else {
      assert (R + [e])[0] == R[0] && (R + [e])[1..] == R[1..] + [e];
      RowLinesSnoc(R[1..], e);
    }
  }

  /** `to_table` as the source writes it: the string grown row by row in a nested loop. */
  method ToTable(results: Results) returns (table: string)
    ensures table == RenderTable(results)
  {
    table := "\n\n## Stats\n\n";
    table := table + HeaderRow + "\n";
    table := table + RuleRow + "\n";
    assert results[..0] == [];
    assert table == Preamble + Unlines(RowLines(results[..0]));
    var i := 0;
    while i < |results|
      invariant i <= |results|
      invariant table == Preamble + Unlines(RowLines(results[..i]))
    {
      var e := results[i];
      var parts := [One, Two];
      var stats := [e.stats.one, e.stats.two];
      ghost var before := table;
      var j := 0;
      while j < 2
        invariant j <= 2
        invariant table == before + Unlines(EntryLines(e)[..j])
      {
        var row := RowText(e.key, parts[j].Value(), stats[j]);
        AppendRow(before, EntryLines(e), j);
        table := table + row + "\n";
        j := j + 1;
      }
      assert EntryLines(e)[..2] == EntryLines(e);
      NextRun(Preamble, results, i);
      i := i + 1;
    }
    assert results[..i] == results;
  }

  lemma AppendRow(before: string, ls: seq<string>, j: nat)
    requires j < |ls|
    ensures before + Unlines(ls[..j]) + ls[j] + "\n" == before + Unlines(ls[..j + 1])
  {
    assert ls[..j + 1] == ls[..j] + [ls[j]];
    UnlinesAppend(ls[..j], [ls[j]]);
    assert Unlines([ls[j]]) == ls[j] + "\n" + Unlines([]);
  }

  lemma NextRun(P: string, R: Results, i: nat)
    requires i < |R|
    ensures P + Unlines(RowLines(R[..i])) + Unlines(EntryLines(R[i])) == P + Unlines(RowLines(R[..i + 1]))
  {
    assert R[..i + 1] == R[..i] + [R[i]];
    RowLinesSnoc(R[..i], R[i]);
    UnlinesAppend(RowLines(R[..i]), EntryLines(R[i]));
  }

  // ----- the round trip ---------------------------------------------------

  /** A field the table can carry: no pipe, no line break, no surrounding whitespace. */
  predicate Clean(s: string) {
    '|' !in s && BreakFree(s) && Stripped(s)
  }

  predicate CleanEntry(e: Entry) {
    Clean(e.key.day) && Clean(e.key.language) && Clean(e.key.person)
    && Clean(e.stats.one.seconds) && Clean(e.stats.one.kilobytes) && Clean(e.stats.one.notes)
    && Clean(e.stats.two.seconds) && Clean(e.stats.two.kilobytes) && Clean(e.stats.two.notes)
  }

  /** Results `to_table` writes so that `from_table` reads them back. */
  predicate Renderable(R: Results) {
    IsDict(R) && forall k :: 0 <= k < |R| ==> CleanEntry(R[k])
  }

  /** A row's cells as `split` finds them: the first and the last keep one pad space. */
  function RowCells(run: Run, part: string, stat: Stat): seq<string> {
    [" " + run.day, run.language, run.person, part, stat.seconds, stat.kilobytes, stat.notes + " "]
  }

  /** A row is its cells joined by " | " between the two outer pipes. */
  lemma RowTextCells(run: Run, part: string, stat: Stat)
    ensures RowText(run, part, stat) == "|" + Join(RowCells(run, part, stat), " | ") + "|"
  {
    var sep := " | ";
    var c := RowCells(run, part, stat);
    var J := JoinSeven(c[0], c[1], c[2], c[3], c[4], c[5], c[6], sep);
    assert [c[0], c[1], c[2], c[3], c[4], c[5], c[6]] == c;
    FlatSeven(run.day, run.language, run.person, part, stat.seconds, stat.kilobytes, stat.notes);
  }

  /** Seven cells joined, as a right-nested concatenation. */
  lemma JoinSeven(a: string, b: string, c: string, d: string, e: string, f: string, g: string, sep: string)
    returns (J: string)
    ensures J == a + sep + (b + sep + (c + sep + (d + sep + (e + sep + (f + sep + g)))))
    ensures Join([a, b, c, d, e, f, g], sep) == J
  {
    J := a + sep + (b + sep + (c + sep + (d + sep + (e + sep + (f + sep + g)))));
    JoinPair(f, g, sep);
    JoinConsOf(e, [f, g], sep);
    JoinConsOf(d, [e, f, g], sep);
    JoinConsOf(c, [d, e, f, g], sep);
    JoinConsOf(b, [c, d, e, f, g], sep);
    JoinConsOf(a, [b, c, d, e, f, g], sep);
  }

  lemma JoinPair(f: string, g: string, sep: string)
    ensures Join([f, g], sep) == f + sep + g
  {
    assert [f, g][1..] == [g];
  }

  lemma JoinConsOf(x: string, rest: seq<string>, sep: string)
    requires |rest| >= 1
    ensures Join([x] + rest, sep) == x + sep + Join(rest, sep)
  {
    assert ([x] + rest)[1..] == rest;
  }

  /** The row's flat concatenation regrouped around its cells. */
  lemma FlatSeven(a: string, b: string, c: string, d: string, e: string, f: string, g: string)
    ensures "| " + a + " | " + b + " | " + c + " | " + d + " | " + e + " | " + f + " | " + g + " |"
         == "|" + ((" " + a) + " | " + (b + " | " + (c + " | " + (d + " | " + (e + " | " + (f + " | " + (g + " "))))))) + "|"
  {
    var s := " | ";
    var t6 := g + " ";
    var t5 := f + s + t6;
    var t4 := e + s + t5;
    var t3 := d + s + t4;
    var t2 := c + s + t3;
    var t1 := b + s + t2;
    var l1 := "| " + a + s + b;
    var l2 := l1 + s + c;
    var l3 := l2 + s + d;
    var l4 := l3 + s + e;
    var l5 := l4 + s + f;
    var l6 := l5 + s + g;
    assert l6 + " |" == l5 + s + (t6 + "|") by { Regroup(l5, s, g, " ", "|"); }
    assert l5 + s + (t6 + "|") == l4 + s + (t5 + "|") by { Regroup3(l4, s, f, t6, "|"); }
    assert l4 + s + (t5 + "|") == l3 + s + (t4 + "|") by { Regroup3(l3, s, e, t5, "|"); }
    assert l3 + s + (t4 + "|") == l2 + s + (t3 + "|") by { Regroup3(l2, s, d, t4, "|"); }
    assert l2 + s + (t3 + "|") == l1 + s + (t2 + "|") by { Regroup3(l1, s, c, t3, "|"); }
    assert l1 + s + (t2 + "|") == "| " + a + s + (t1 + "|") by { Regroup3("| " + a, s, b, t2, "|"); }
    assert "| " + a + s + (t1 + "|") == "|" + ((" " + a) + s + t1) + "|" by { Outer(a, s, t1); }
  }

  lemma Regroup(x: string, s: string, g: string, sp: string, bar: string)
    ensures x + s + g + (sp + bar) == x + s + ((g + sp) + bar)
  {
  }

  lemma Regroup3(x: string, s: string, y: string, t: string, bar: string)
    ensures x + s + y + s + (t + bar) == x + s + ((y + s + t) + bar)
  {
  }

  lemma Outer(a: string, s: string, t: string)
    ensures "| " + a + s + (t + "|") == "|" + ((" " + a) + s + t) + "|"
  {
    assert "| " == "|" + " ";
  }

  /** Splitting on " | " peels off a leading field that holds no pipe. */
  lemma PeelCell(a: string, b: string)
    requires '|' !in a
    ensures Split(a + " | " + b, " | ") == [a] + Split(b, " | ")
  {
    var s := a + " | " + b;
    forall i | 0 <= i < |a| ensures !At(s, " | ", i) {
      if i + 3 <= |s| {
        assert s[i..i + 3][1] == s[i + 1];
        if i + 1 < |a| {
          assert s[i + 1] == a[i + 1];
        } else {
          assert s[i + 1] == ' ';
        }
      }
    }
    SplitPeel(a, " | ", b);
  }

  /** Fields that hold no pipe, joined by " | ", split back into those fields. */
  lemma {:induction false} SplitJoinCells(fs: seq<string>)
    requires |fs| > 0
    requires forall k :: 0 <= k < |fs| ==> '|' !in fs[k]
    ensures Split(Join(fs, " | "), " | ") == fs
  {
    if |fs| == 1 {
      var a := fs[0];
      forall i | 0 <= i ensures !At(a, " | ", i) {
        if i + 3 <= |a| {
          assert a[i..i + 3][1] == a[i + 1];
        }
      }
      FindNone(a, " | ", 0);
    } else {
      PeelCell(fs[0], Join(fs[1..], " | "));
      SplitJoinCells(fs[1..]);
      assert fs == [fs[0]] + fs[1..];
    }
  }

  /** Reading a written row gives back its run, part and stat. */
  lemma RowOfRow(run: Run, part: string, stat: Stat)
    requires Clean(run.day) && Clean(run.language) && Clean(run.person) && '|' !in part
    requires Clean(stat.seconds) && Clean(stat.kilobytes) && Clean(stat.notes)
    ensures RowText(run, part, stat) != ""
    ensures |Cells(RowText(run, part, stat))| == 7
    ensures RowOf(Cells(RowText(run, part, stat))) == Row(run, part, stat)
  {
    var c := RowCells(run, part, stat);
    var j := Join(c, " | ");
    RowTextCells(run, part, stat);
    assert Slice("|" + j + "|", 1, -1) == j;
    SplitJoinCells(c);
    StripLeftPadded(run.day);
    StripRightPadded(stat.notes);
  }

  /** A "one" row that was written is read as the new `part_one`. */
  lemma ParseOneRow(e: Entry, rest: seq<string>, partOne: Option<Stat>, acc: Results)
    requires CleanEntry(e)
    ensures ParseRows([RowText(e.key, "one", e.stats.one)] + rest, partOne, acc) == ParseRows(rest, Some(e.stats.one), acc)
  {
    RowOfRow(e.key, "one", e.stats.one);
    ParseRowLine(RowText(e.key, "one", e.stats.one), rest, partOne, acc);
  }

  /** A "two" row that was written after its "one" row stores the run's pair. */
  lemma ParseTwoRow(e: Entry, rest: seq<string>, acc: Results)
    requires CleanEntry(e)
    ensures ParseRows([RowText(e.key, "two", e.stats.two)] + rest, Some(e.stats.one), acc)
         == ParseRows(rest, Some(e.stats.one), Put(acc, e.key, e.stats))
  {
    RowOfRow(e.key, "two", e.stats.two);
    ParseRowLine(RowText(e.key, "two", e.stats.two), rest, Some(e.stats.one), acc);
  }

  /**
    Reading the rows of written runs stores each run's pair in turn, which is
    merging them into what was read before; the most recent "one" stat is the
    last run's.
  */
  lemma {:induction false} ParseRowsRendered(R: Results, tail: seq<string>, partOne: Option<Stat>, acc: Results)
    requires forall k :: 0 <= k < |R| ==> CleanEntry(R[k])
    ensures ParseRows(RowLines(R) + tail, partOne, acc)
         == ParseRows(tail, if R == [] then partOne else Some(R[|R| - 1].stats.one), Merge(acc, R))
    decreases |R|
  {
    if R == [] {
      assert RowLines(R) + tail == tail;
    } else {
      var e := R[0];
      assert [e] + R[1..] == R;
      RenderedHead(e, R[1..], tail, partOne, acc);
      ParseRowsRendered(R[1..], tail, Some(e.stats.one), Put(acc, e.key, e.stats));
      MergeCons(acc, R);
      if |R| >= 2 { LastOfTail(R); }
    }
  }

  /** The first run's two rows read back: its "one" row, then its "two" row. */
  lemma RenderedHead(e: Entry, R: Results, tail: seq<string>, partOne: Option<Stat>, acc: Results)
    requires CleanEntry(e)
    ensures ParseRows(RowLines([e] + R) + tail, partOne, acc)
         == ParseRows(RowLines(R) + tail, Some(e.stats.one), Put(acc, e.key, e.stats))
  {
    var one := RowText(e.key, "one", e.stats.one);
    var two := RowText(e.key, "two", e.stats.two);
    RowLinesCons(e, R, tail);
    RowOfRow(e.key, "one", e.stats.one);
    RowOfRow(e.key, "two", e.stats.two);
    ParsePair(one, two, RowLines(R) + tail, partOne, acc);
  }

  /** A "one" line then a "two" line store the pair under the "two" line's run. */
  lemma ParsePair(one: string, two: string, rest: seq<string>, partOne: Option<Stat>, acc: Results)
    requires one != "" && |Cells(one)| == 7 && RowOf(Cells(one)).part == "one"
    requires two != "" && |Cells(two)| == 7 && RowOf(Cells(two)).part == "two"
    ensures ParseRows([one] + ([two] + rest), partOne, acc)
         == ParseRows(rest, Some(RowOf(Cells(one)).stat),
                      Put(acc, RowOf(Cells(two)).run, Stats(RowOf(Cells(one)).stat, RowOf(Cells(two)).stat)))
  {
    ParseRowLine(one, [two] + rest, partOne, acc);
    ParseRowLine(two, rest, Some(RowOf(Cells(one)).stat), acc);
  }

  lemma RowLinesCons(e: Entry, R: Results, tail: seq<string>)
    ensures RowLines([e] + R) + tail == [RowText(e.key, "one", e.stats.one)] + ([RowText(e.key, "two", e.stats.two)] + (RowLines(R) + tail))
  {
    assert ([e] + R)[0] == e && ([e] + R)[1..] == R;
  }

  lemma LastOfTail<T>(R: seq<T>)
    requires |R| >= 2
    ensures R[1..][|R[1..]| - 1] == R[|R| - 1]
  {
  }

  /** `from_table` stops at the first empty line: whatever follows it is never read. */
  lemma {:induction false} ParseStopsAtBlank(ls: seq<string>, rest: seq<string>, partOne: Option<Stat>, acc: Results)
    requires forall k :: 0 <= k < |ls| ==> ls[k] != ""
    ensures ParseRows(ls + [""] + rest, partOne, acc) == ParseRows(ls, partOne, acc)
    decreases |ls|
  {
    var all := ls + [""] + rest;
    if ls == [] {
      assert all[0] == "";
    } else {
      var t := ls[1..] + [""] + rest;
      assert all[0] == ls[0] && all[1..] == t;
      var c := Cells(ls[0]);
      if |c| == 7 {
        var row := RowOf(c);
        var p' := if row.part == "one" then Some(row.stat) else partOne;
        var acc' := if row.part == "two" && partOne.Some? then Put(acc, row.run, Stats(partOne.value, row.stat)) else acc;
        ParseStopsAtBlank(ls[1..], rest, p', acc');
        ParseRowsStep(all, partOne, acc);
        ParseRowsStep(ls, partOne, acc);
      }
    }
  }

  /** What the loop does with a row of seven cells, given the lines after it. */
  function RowStep(row: Row, rest: seq<string>, partOne: Option<Stat>, acc: Results): Result<Results> {
    if row.part == "one" then ParseRows(rest, Some(row.stat), acc)
    else if row.part == "two" then
      if partOne.None? then Err(MissingPartOne)
      else ParseRows(rest, partOne, Put(acc, row.run, Stats(partOne.value, row.stat)))
    else Err(UnknownPart(row.part))
  }

  /** One step of the loop on a non-empty line with seven cells. */
  lemma ParseRowsStep(lines: seq<string>, partOne: Option<Stat>, acc: Results)
    requires lines != [] && lines[0] != "" && |Cells(lines[0])| == 7
    ensures ParseRows(lines, partOne, acc) == RowStep(RowOf(Cells(lines[0])), lines[1..], partOne, acc)
  {
  }

  /** The same step for a line put in front of the lines that follow it. */
  lemma ParseRowLine(line: string, rest: seq<string>, partOne: Option<Stat>, acc: Results)
    requires line != "" && |Cells(line)| == 7
    ensures ParseRows([line] + rest, partOne, acc) == RowStep(RowOf(Cells(line)), rest, partOne, acc)
  {
    assert ([line] + rest)[0] == line && ([line] + rest)[1..] == rest;
    ParseRowsStep([line] + rest, partOne, acc);
  }

  /** A "two" row with no "one" row before it fails the assertion. */
  lemma TwoWithoutOne(e: Entry, rest: seq<string>, acc: Results)
    requires CleanEntry(e)
    ensures ParseRows([RowText(e.key, "two", e.stats.two)] + rest, None, acc) == Err(MissingPartOne)
  {
    RowOfRow(e.key, "two", e.stats.two);
    ParseRowLine(RowText(e.key, "two", e.stats.two), rest, None, acc);
  }

  /** A row whose part is neither "one" nor "two" raises, naming the part. */
  lemma UnknownPartRaises(e: Entry, part: string, rest: seq<string>, partOne: Option<Stat>, acc: Results)
    requires CleanEntry(e) && '|' !in part && part != "one" && part != "two"
    ensures ParseRows([RowText(e.key, part, e.stats.one)] + rest, partOne, acc) == Err(UnknownPart(part))
  {
    RowOfRow(e.key, part, e.stats.one);
    ParseRowLine(RowText(e.key, part, e.stats.one), rest, partOne, acc);
  }

  /** Written runs followed by a row with an unknown part: reading fails there, whatever came before. */
  lemma UnknownPartAfterRows(R: Results, e: Entry, part: string, rest: seq<string>)
    requires forall k :: 0 <= k < |R| ==> CleanEntry(R[k])
    requires CleanEntry(e) && '|' !in part && part != "one" && part != "two"
    ensures ParseRows(RowLines(R) + ([RowText(e.key, part, e.stats.one)] + rest), None, []) == Err(UnknownPart(part))
  {
    ParseRowsRendered(R, [RowText(e.key, part, e.stats.one)] + rest, None, []);
    UnknownPartRaises(e, part, rest, if R == [] then None else Some(R[|R| - 1].stats.one), Merge([], R));
  }

  lemma BreakFreeAppend(a: string, b: string)
    requires BreakFree(a) && BreakFree(b)
    ensures BreakFree(a + b)
  {
    forall i | 0 <= i < |a + b| ensures !IsLineBreak((a + b)[i]) {
      if i < |a| {
        assert (a + b)[i] == a[i];
      } else {
        assert (a + b)[i] == b[i - |a|];
      }
    }
  }

  lemma {:induction false} JoinBreakFree(fs: seq<string>, sep: string)
    requires BreakFree(sep)
    requires forall k :: 0 <= k < |fs| ==> BreakFree(fs[k])
    ensures BreakFree(Join(fs, sep))
  {
    if |fs| > 1 {
      JoinBreakFree(fs[1..], sep);
      BreakFreeAppend(fs[0], sep);
      BreakFreeAppend(fs[0] + sep, Join(fs[1..], sep));
    }
  }

  /** A written row holds no line break and starts with a pipe. */
  lemma RowTextBreakFree(run: Run, part: string, stat: Stat)
    requires BreakFree(run.day) && BreakFree(run.language) && BreakFree(run.person) && BreakFree(part)
    requires BreakFree(stat.seconds) && BreakFree(stat.kilobytes) && BreakFree(stat.notes)
    ensures BreakFree(RowText(run, part, stat))
    ensures |RowText(run, part, stat)| > 0 && RowText(run, part, stat)[0] == '|'
  {
    var c := RowCells(run, part, stat);
    RowTextCells(run, part, stat);
    BreakFreeAppend(" ", run.day);
    BreakFreeAppend(stat.notes, " ");
    JoinBreakFree(c, " | ");
    BreakFreeAppend("|", Join(c, " | "));
    BreakFreeAppend("|" + Join(c, " | "), "|");
  }

  /** Every line of the written table is free of line breaks and starts with a pipe, except the heading's. */
  lemma TableLinesBreakFree(R: Results)
    requires forall k :: 0 <= k < |R| ==> CleanEntry(R[k])
    ensures forall i :: 0 <= i < |PreambleLines + RowLines(R)| ==> BreakFree((PreambleLines + RowLines(R))[i])
    ensures forall i :: 4 <= i < |PreambleLines + RowLines(R)| ==>
              |(PreambleLines + RowLines(R))[i]| > 0 && (PreambleLines + RowLines(R))[i][0] == '|'
  {
    HeadingRowsBreakFree();
    RowsStartWithPipe(R);
    LinesAfterPreamble(HeaderRow, RuleRow, RowLines(R));
  }

  lemma HeadingRowsBreakFree()
    ensures BreakFree(HeaderRow) && |HeaderRow| > 0 && HeaderRow[0] == '|'
    ensures BreakFree(RuleRow) && |RuleRow| > 0 && RuleRow[0] == '|'
  {
    assert BreakFree("day") && BreakFree("language") && BreakFree("who") && BreakFree("part");
    assert BreakFree("time (s)") && BreakFree("mem (KB)") && BreakFree("notes") && BreakFree("---");
    RowTextBreakFree(Run("day", "language", "who"), "part", Stat("time (s)", "mem (KB)", "notes"));
    RowTextBreakFree(Run("---", "---", "---"), "---", Stat("---", "---", "---"));
  }

  lemma LinesAfterPreamble(H: string, Ru: string, RL: seq<string>)
    requires BreakFree(H) && |H| > 0 && H[0] == '|'
    requires BreakFree(Ru) && |Ru| > 0 && Ru[0] == '|'
    requires forall i :: 0 <= i < |RL| ==> BreakFree(RL[i]) && |RL[i]| > 0 && RL[i][0] == '|'
    ensures forall i :: 0 <= i < |["", "", "## Stats", "", H, Ru] + RL| ==> BreakFree((["", "", "## Stats", "", H, Ru] + RL)[i])
    ensures forall i :: 4 <= i < |["", "", "## Stats", "", H, Ru] + RL| ==>
              |(["", "", "## Stats", "", H, Ru] + RL)[i]| > 0 && (["", "", "## Stats", "", H, Ru] + RL)[i][0] == '|'
  {
    var ls := ["", "", "## Stats", "", H, Ru] + RL;
    assert BreakFree("") && BreakFree("## Stats");
    forall i | 0 <= i < |ls| ensures BreakFree(ls[i]) && (4 <= i ==> |ls[i]| > 0 && ls[i][0] == '|') {
      if i >= 6 {
        assert ls[i] == RL[i - 6];
      }
    }
  }

  lemma UnlinesCons(l: string, ls: seq<string>)
    ensures Unlines([l] + ls) == l + "\n" + Unlines(ls)
  {
    assert ([l] + ls)[1..] == ls;
  }

  /** The written table is the preamble's six lines and then the rows, each line ended by "\n". */
  lemma RenderTableLines(R: Results)
    ensures RenderTable(R) == Unlines(PreambleLines + RowLines(R))
  {
    PreambleUnlines(HeaderRow, RuleRow, RowLines(R));
  }

  lemma PreambleUnlines(H: string, Ru: string, RL: seq<string>)
    ensures "\n\n## Stats\n\n" + H + "\n" + Ru + "\n" + Unlines(RL) == Unlines(["", "", "## Stats", "", H, Ru] + RL)
  {
    var U := Unlines(RL);
    UnlinesSix("", "", "## Stats", "", H, Ru, RL);
    HeadingText(H + "\n" + (Ru + "\n" + U));
    assert H + "\n" + (Ru + "\n" + U) == H + "\n" + Ru + "\n" + U;
  }

  lemma UnlinesSix(a: string, b: string, c: string, d: string, e: string, f: string, RL: seq<string>)
    ensures Unlines([a, b, c, d, e, f] + RL)
         == a + "\n" + (b + "\n" + (c + "\n" + (d + "\n" + (e + "\n" + (f + "\n" + Unlines(RL))))))
  {
    assert [a, b, c, d, e, f] + RL == [a] + ([b] + ([c] + ([d] + ([e] + ([f] + RL)))));
    UnlinesCons(f, RL);
    UnlinesCons(e, [f] + RL);
    UnlinesCons(d, [e] + ([f] + RL));
    UnlinesCons(c, [d] + ([e] + ([f] + RL)));
    UnlinesCons(b, [c] + ([d] + ([e] + ([f] + RL))));
    UnlinesCons(a, [b] + ([c] + ([d] + ([e] + ([f] + RL)))));
  }

  lemma HeadingText(X: string)
    ensures "" + "\n" + ("" + "\n" + ("## Stats" + "\n" + ("" + "\n" + X))) == "\n\n## Stats\n\n" + X
  {
  }

  /** Reading what `to_table` wrote gives the results back. */
  lemma ParseRender(R: Results)
    requires Renderable(R)
    ensures ParseTable(RenderTable(R)) == Ok(R)
  {
    RenderTableLines(R);
    TableLinesBreakFree(R);
    ReadRowsAfterSix(RenderTable(R), PreambleLines, R);
  }

  /** Six break-free lines and then the rows of `R`, each line ended by "\n", are read as `R`. */
  lemma ReadRowsAfterSix(T: string, P: seq<string>, R: Results)
    requires T == Unlines(P + RowLines(R))
    requires |P| == 6 && Renderable(R)
    requires forall i :: 0 <= i < |P + RowLines(R)| ==> BreakFree((P + RowLines(R))[i])
    ensures ParseTable(T) == Ok(R)
  {
    SplitLinesUnlines(P + RowLines(R));
    RowsOfTable(P, RowLines(R));
    ReadRenderedRows(R);
  }

  /** `from_table` skips the first six lines and reads the rest. */
  lemma RowsOfTable(P: seq<string>, X: seq<string>)
    requires |P| == 6
    ensures TableRows(P + X) == ParseRows(X, None, [])
  {
    AfterSix(P, X);
  }

  lemma AfterSix(P: seq<string>, X: seq<string>)
    requires |P| == 6
    ensures Slice(P + X, 6, |P + X|) == X
  {
    assert (P + X)[6..] == X;
  }

  /** The rows of `R` alone are read as `R`. */
  lemma ReadRenderedRows(R: Results)
    requires Renderable(R)
    ensures ParseRows(RowLines(R), None, []) == Ok(R)
  {
    assert RowLines(R) + [] == RowLines(R);
    ParseRowsRendered(R, [], None, []);
    MergeOntoPrefix([], R);
  }

  /** The same when the table's final "\n" is missing. */
  lemma ParseRenderUnterminated(R: Results)
    requires Renderable(R)
    ensures |RenderTable(R)| > 0
    ensures ParseTable(RenderTable(R)[..|RenderTable(R)| - 1]) == Ok(R)
  {
    RenderTableLines(R);
    TableLinesBreakFree(R);
    ReadRowsAfterSixUnterminated(PreambleLines, R);
  }

  lemma ReadRowsAfterSixUnterminated(P: seq<string>, R: Results)
    requires |P| == 6 && Renderable(R)
    requires forall i :: 0 <= i < |P + RowLines(R)| ==> BreakFree((P + RowLines(R))[i])
    requires forall i :: 4 <= i < |P + RowLines(R)| ==> |(P + RowLines(R))[i]| > 0
    ensures |Unlines(P + RowLines(R))| > 0
    ensures ParseTable(Unlines(P + RowLines(R))[..|Unlines(P + RowLines(R))| - 1]) == Ok(R)
  {
    var ls := P + RowLines(R);
    assert ls[|ls| - 1] != "";
    ReadRenderedRows(R);
    TableWithoutLastBreak(P, RowLines(R), Ok(R));
  }

  /** Six lines and then rows, the final "\n" dropped, read as the rows do. */
  lemma TableWithoutLastBreak(P: seq<string>, X: seq<string>, r: Result<Results>)
    requires |P| == 6 && |P + X| > 0 && (P + X)[|P + X| - 1] != ""
    requires forall k :: 0 <= k < |P + X| ==> BreakFree((P + X)[k])
    requires ParseRows(X, None, []) == r
    ensures |Unlines(P + X)| > 0 && ParseTable(Unlines(P + X)[..|Unlines(P + X)| - 1]) == r
  {
    SplitLinesDropLast(P + X);
    TableOfLines(Unlines(P + X)[..|Unlines(P + X)| - 1], P, X, r);
  }

  lemma TableOfLines(t: string, P: seq<string>, X: seq<string>, r: Result<Results>)
    requires SplitLines(t) == P + X && |P| == 6 && ParseRows(X, None, []) == r
    ensures ParseTable(t) == r
  {
    RowsOfTable(P, X);
  }


  // ----- the splice: write_results ---------------------------------------

  /** Where the section starts. */
  const StatsHeading := "\n\n## Stats"

  /** Where the section is taken to end: the next second-level heading. */
  const NextHeading := "\n\n##"

  /**
    The text `from_table` is given, when the document has the heading:
    from it up to the next heading. `find` from one past the heading never
    gives 0, so the `if section_ends` test always holds, and when no next
    heading exists the slice `[begins:-1]` stops one character short of the end.
  */
  function StatsSection(doc: string): (r: Option<string>)
    ensures r.Some? <==> Find(doc, StatsHeading, 0) != -1
    ensures r.Some? ==> var b := Find(doc, StatsHeading, 0);
              var e := Find(doc, NextHeading, b + 1);
              (e != -1 ==> b < e && r.value == doc[b..e])
              && (e == -1 ==> |doc| > 0 && r.value == doc[b..|doc| - 1])
  {
    var begins := Find(doc, StatsHeading, 0);
    if begins == -1 then None
    else
      var ends := Find(doc, NextHeading, begins + 1);
      Some(if ends != 0 then Slice(doc, begins, ends) else Slice(doc, begins, |doc|))
  }

  /** The results already in the document: none without the heading, else the section read as a table. */
  function ReadExisting(doc: string): (r: Result<Results>)
    ensures r.Ok? ==> IsDict(r.value)
    ensures StatsSection(doc).None? ==> r == Ok([])
  {
    match StatsSection(doc)
    case None => Ok([])
    case Some(section) =>
      var t := ParseTable(section);
      assert t.Ok? ==> IsDict(t.value);
      t
  }

  /**
    `write_results`, on the document's text: without the heading the table is
    appended; with it, the section is read, the new results are merged over
    it and the table of the merge replaces the section, keeping the text
    before the heading and from the next heading on.
  */
  function WriteResults(doc: string, latest: Results): (r: Result<string>)
    ensures Find(doc, StatsHeading, 0) == -1 ==> r == Ok(doc + RenderTable(latest))
    ensures r.Err? <==> ReadExisting(doc).Err?
    ensures r.Err? ==> r.fault == ReadExisting(doc).fault
  {
    var begins := Find(doc, StatsHeading, 0);
    if begins == -1 then Ok(doc + RenderTable(latest))
    else
      var ends := Find(doc, NextHeading, begins + 1);
      var prior := ParseTable(StatsSection(doc).value);
      if prior.Err? then Err(prior.fault)
      else
        var merged := Merge(prior.value, latest);
        if ends > -1 then Ok(doc[..begins] + RenderTable(merged) + doc[ends..])
        else Ok(doc[..begins] + RenderTable(merged))
  }

  /**
    With the heading present, the text before it is kept byte for byte, then
    comes the table of the merge, then the text from the next heading on, or
    nothing when there is none.
  */
  lemma WriteResultsSplice(doc: string, latest: Results)
    requires Find(doc, StatsHeading, 0) != -1 && ReadExisting(doc).Ok?
    ensures var r := WriteResults(doc, latest).value;
            var b := Find(doc, StatsHeading, 0);
            var e := Find(doc, NextHeading, b + 1);
            var T := RenderTable(Merge(ReadExisting(doc).value, latest));
            |r| >= b + |T| && r[..b] == doc[..b] && r[b..b + |T|] == T
            && (e == -1 ==> |r| == b + |T|)
            && (e != -1 ==> b < e <= |doc| && r[b + |T|..] == doc[e..])
  {
    var b := Find(doc, StatsHeading, 0);
    var e := Find(doc, NextHeading, b + 1);
    var T := RenderTable(Merge(ReadExisting(doc).value, latest));
    var suffix := if e == -1 then "" else doc[e..];
    SplicedResult(doc, latest);
    assert WriteResults(doc, latest).value == doc[..b] + T + suffix;
    Pieces(doc[..b], T, suffix);
  }

  lemma Pieces(a: string, b: string, c: string)
    ensures (a + b + c)[..|a|] == a && (a + b + c)[|a|..|a| + |b|] == b && (a + b + c)[|a| + |b|..] == c
  {
  }

  // ----- what the splice finds in a written document ----------------------

  /** No blank line: a line break is never directly followed by another. */
  predicate NoBlankLine(s: string) {
    forall j :: 0 <= j < |s| - 1 && s[j] == '\n' ==> s[j + 1] != '\n'
  }

  /** Lines that are neither empty nor broken, each ended by "\n", leave no blank line. */
  lemma {:induction false} UnlinesNoBlankLine(L: seq<string>)
    requires forall k :: 0 <= k < |L| ==> BreakFree(L[k]) && |L[k]| > 0
    ensures NoBlankLine(Unlines(L))
    ensures L != [] ==> |Unlines(L)| > 0 && Unlines(L)[0] == L[0][0] && Unlines(L)[|Unlines(L)| - 1] == '\n'
  {
    if L != [] {
      var l, rest := L[0], L[1..];
      var U := Unlines(rest);
      UnlinesNoBlankLine(rest);
      var s := l + "\n" + U;
      assert Unlines(L) == s;
      forall j | 0 <= j < |s| - 1 ensures s[j] == '\n' ==> s[j + 1] != '\n' {
        if j < |l| {
          assert s[j] == l[j];
        } else if j == |l| {
          assert rest[0] == L[1];
          assert s[j + 1] == U[0];
        } else {
          assert s[j] == U[j - |l| - 1] && s[j + 1] == U[j - |l|];
        }
      }
      assert s[0] == l[0];
      if U == [] {
        assert s[|s| - 1] == '\n';
      } else {
        assert s[|s| - 1] == U[|U| - 1];
      }
    }
  }

  /** In lines without a blank one, ended by "\n", the next heading can only start where the suffix does. */
  lemma NoHeadingInLines(W: string, suf: string)
    requires NoBlankLine(W) && |W| > 0 && W[|W| - 1] == '\n'
    requires suf == "" || At(suf, NextHeading, 0)
    ensures forall q :: 0 <= q < |W| ==> !At(W + suf, NextHeading, q)
  {
    var X := W + suf;
    forall q | 0 <= q < |W| ensures !At(X, NextHeading, q) {
      if q + 4 <= |X| {
        var w := X[q..q + 4];
        assert w[0] == X[q] && w[1] == X[q + 1] && w[2] == X[q + 2];
        if q < |W| - 1 {
          assert X[q] == W[q] && X[q + 1] == W[q + 1];
        } else {
          assert suf != "";
          assert suf[..4][1] == suf[1] == X[q + 2];
        }
      }
    }
  }

  /** The table is the heading line, a blank, and then lines that start with a pipe. */
  lemma TableAfterHeading(R: Results)
    requires forall k :: 0 <= k < |R| ==> CleanEntry(R[k])
    ensures var W := Unlines([HeaderRow, RuleRow] + RowLines(R));
            RenderTable(R) == "\n\n## Stats\n\n" + W
            && NoBlankLine(W) && |W| > 0 && W[0] == '|' && W[|W| - 1] == '\n'
  {
    HeadingRowsBreakFree();
    RowsStartWithPipe(R);
    HeadedLines(HeaderRow, RuleRow, RowLines(R));
  }

  lemma {:induction false} RowsStartWithPipe(R: Results)
    requires forall k :: 0 <= k < |R| ==> CleanEntry(R[k])
    ensures forall i :: 0 <= i < |RowLines(R)| ==> BreakFree(RowLines(R)[i]) && |RowLines(R)[i]| > 0 && RowLines(R)[i][0] == '|'
    decreases |R|
  {
    if R != [] {
      var e := R[0];
      RowsStartWithPipe(R[1..]);
      RowTextBreakFree(e.key, "one", e.stats.one);
      RowTextBreakFree(e.key, "two", e.stats.two);
      assert RowLines(R) == EntryLines(e) + RowLines(R[1..]);
      PairThenLines(RowText(e.key, "one", e.stats.one), RowText(e.key, "two", e.stats.two), RowLines(R[1..]));
    }
  }

  lemma PairThenLines(one: string, two: string, rest: seq<string>)
    requires BreakFree(one) && |one| > 0 && one[0] == '|'
    requires BreakFree(two) && |two| > 0 && two[0] == '|'
    requires forall i :: 0 <= i < |rest| ==> BreakFree(rest[i]) && |rest[i]| > 0 && rest[i][0] == '|'
    ensures forall i :: 0 <= i < |[one, two] + rest| ==>
              BreakFree(([one, two] + rest)[i]) && |([one, two] + rest)[i]| > 0 && ([one, two] + rest)[i][0] == '|'
  {
    forall i | 2 <= i < |[one, two] + rest| ensures ([one, two] + rest)[i] == rest[i - 2] {
    }
  }

  lemma HeadedLines(H: string, Ru: string, RL: seq<string>)
    requires BreakFree(H) && |H| > 0 && H[0] == '|' && BreakFree(Ru) && |Ru| > 0
    requires forall i :: 0 <= i < |RL| ==> BreakFree(RL[i]) && |RL[i]| > 0
    ensures var W := Unlines([H, Ru] + RL);
            "\n\n## Stats\n\n" + H + "\n" + Ru + "\n" + Unlines(RL) == "\n\n## Stats\n\n" + W
            && NoBlankLine(W) && |W| > 0 && W[0] == '|' && W[|W| - 1] == '\n'
  {
    var L := [H, Ru] + RL;
    forall i | 0 <= i < |L| ensures BreakFree(L[i]) && |L[i]| > 0 {
      if i >= 2 {
        assert L[i] == RL[i - 2];
      }
    }
    UnlinesNoBlankLine(L);
    var U := Unlines(RL);
    assert L == [H] + ([Ru] + RL);
    UnlinesCons(Ru, RL);
    UnlinesCons(H, [Ru] + RL);
    assert "\n\n## Stats\n\n" + H + "\n" + Ru + "\n" + U == "\n\n## Stats\n\n" + (H + "\n" + (Ru + "\n" + U));
  }

  /** Inside a written table, past its first character, there is no next heading. */
  lemma NoHeadingInTable(R: Results, suf: string)
    requires forall k :: 0 <= k < |R| ==> CleanEntry(R[k])
    requires suf == "" || At(suf, NextHeading, 0)
    ensures forall p :: 1 <= p < |RenderTable(R)| ==> !At(RenderTable(R) + suf, NextHeading, p)
  {
    var W := Unlines([HeaderRow, RuleRow] + RowLines(R));
    TableAfterHeading(R);
    NoHeadingAfterHeadingLine(W, suf);
  }

  lemma NoHeadingAfterHeadingLine(W: string, suf: string)
    requires NoBlankLine(W) && |W| > 0 && W[0] == '|' && W[|W| - 1] == '\n'
    requires suf == "" || At(suf, NextHeading, 0)
    ensures forall p :: 1 <= p < 12 + |W| ==> !At("\n\n## Stats\n\n" + W + suf, NextHeading, p)
  {
    var a := "\n\n## Stats\n\n";
    NoHeadingInLines(W, suf);
    var X := a + W + suf;
    assert X == a + (W + suf);
    forall p | 1 <= p < 12 + |W| ensures !At(X, NextHeading, p) {
      if p < 12 {
        if p + 4 <= |X| {
          var w := X[p..p + 4];
          assert w[0] == X[p] && w[1] == X[p + 1] && w[2] == X[p + 2];
          assert X[12] == W[0] == '|';
          assert X[..12] == a;
          assert X[p] == a[p];
          if p + 2 < 12 {
            assert X[p + 1] == a[p + 1] && X[p + 2] == a[p + 2];
          } else if p + 1 < 12 {
            assert X[p + 1] == a[p + 1];
          }
        }
      } else {
        AtShift(a, W + suf, NextHeading, p - 12);
      }
    }
  }

  /** A match that lies inside a prefix is a match of the prefix. */
  lemma AtWithin(s: string, pat: string, n: nat, i: nat)
    requires i + |pat| <= n <= |s|
    ensures At(s, pat, i) <==> At(s[..n], pat, i)
  {
    assert s[..n][i..i + |pat|] == s[i..i + |pat|];
  }

  /** Text with no heading before the written one: the heading `find` reports is the written one. */
  lemma FirstHeading(pre: string, rest: string)
    requires forall i :: 0 <= i < |pre| ==> !At(pre + StatsHeading, StatsHeading, i)
    ensures Find(pre + StatsHeading + rest, StatsHeading, 0) == |pre|
  {
    var doc := pre + StatsHeading + rest;
    assert doc[..|pre| + 10] == pre + StatsHeading;
    assert doc[|pre|..|pre| + 10] == StatsHeading;
    forall i | 0 <= i < |pre| ensures !At(doc, StatsHeading, i) {
      AtWithin(doc, StatsHeading, |pre| + 10, i);
    }
    FindIs(doc, StatsHeading, 0, |pre|);
  }

  /**
    The heading has no border (no proper prefix that is also a suffix), so a
    document without it does not gain an earlier one when the table is appended.
  */
  lemma HeadingNotCompleted(doc: string)
    requires Find(doc, StatsHeading, 0) == -1
    ensures forall i :: 0 <= i < |doc| ==> !At(doc + StatsHeading, StatsHeading, i)
  {
    var X := doc + StatsHeading;
    forall i | 0 <= i < |doc| ensures !At(X, StatsHeading, i) {
      if i + 10 <= |doc| {
        AtWithin(X, StatsHeading, |doc|, i);
        assert X[..|doc|] == doc;
      } else {
        var k := i + 10 - |doc|;
        var w := X[i..i + 10];
        assert w[9] == X[i + 9] == StatsHeading[k - 1];
        assert StatsHeading[9] == 's';
        assert k - 1 < 9;
        assert StatsHeading[k - 1] != 's';
      }
    }
  }

  /** The text before the first heading holds no heading of its own, even with the heading put back. */
  lemma HeadingPrefix(doc: string)
    requires Find(doc, StatsHeading, 0) != -1
    ensures var b := Find(doc, StatsHeading, 0);
            forall i :: 0 <= i < b ==> !At(doc[..b] + StatsHeading, StatsHeading, i)
  {
    var b := Find(doc, StatsHeading, 0);
    var s := doc[..b + 10];
    assert doc[..b] + StatsHeading == s;
    forall i | 0 <= i < b ensures !At(s, StatsHeading, i) {
      AtWithin(doc, StatsHeading, b + 10, i);
    }
  }

  /** Where the splice finds the section of a document made of text, a written table and a tail. */
  lemma FindsTable(pre: string, T: string, suf: string)
    requires |T| >= 10 && T[..10] == StatsHeading
    requires forall i :: 0 <= i < |pre| ==> !At(pre + StatsHeading, StatsHeading, i)
    requires forall p :: 1 <= p < |T| ==> !At(T + suf, NextHeading, p)
    requires suf == "" || At(suf, NextHeading, 0)
    ensures Find(pre + T + suf, StatsHeading, 0) == |pre|
    ensures Find(pre + T + suf, NextHeading, |pre| + 1) == if suf == "" then -1 else |pre| + |T|
  {
    FindsTableStart(pre, T, suf);
    FindsTableEnd(pre, T, suf);
  }

  lemma FindsTableStart(pre: string, T: string, suf: string)
    requires |T| >= 10 && T[..10] == StatsHeading
    requires forall i :: 0 <= i < |pre| ==> !At(pre + StatsHeading, StatsHeading, i)
    ensures Find(pre + T + suf, StatsHeading, 0) == |pre|
  {
    var rest := T[10..] + suf;
    assert T == StatsHeading + T[10..];
    assert pre + T + suf == pre + StatsHeading + rest;
    FirstHeading(pre, rest);
  }

  lemma FindsTableEnd(pre: string, T: string, suf: string)
    requires |T| > 0
    requires forall p :: 1 <= p < |T| ==> !At(T + suf, NextHeading, p)
    requires suf == "" || At(suf, NextHeading, 0)
    ensures suf == "" ==> Find(pre + T + suf, NextHeading, |pre| + 1) == -1
    ensures suf != "" ==> Find(pre + T + suf, NextHeading, |pre| + 1) == |pre| + |T|
  {
    if suf == "" {
      NothingAfterTable(pre, T, suf);
    } else {
      HeadingAfterTable(pre, T, suf);
    }
  }

  lemma NothingAfterTable(pre: string, T: string, suf: string)
    requires forall p :: 1 <= p < |T| ==> !At(T + suf, NextHeading, p)
    requires suf == ""
    ensures Find(pre + T + suf, NextHeading, |pre| + 1) == -1
  {
    NoHeadingInside(pre, T, suf);
    FindNone(pre + T + suf, NextHeading, |pre| + 1);
  }

  lemma HeadingAfterTable(pre: string, T: string, suf: string)
    requires |T| > 0
    requires forall p :: 1 <= p < |T| ==> !At(T + suf, NextHeading, p)
    requires At(suf, NextHeading, 0)
    ensures Find(pre + T + suf, NextHeading, |pre| + 1) == |pre| + |T|
  {
    NoHeadingInside(pre, T, suf);
    AtShift(pre + T, suf, NextHeading, 0);
    FindIs(pre + T + suf, NextHeading, |pre| + 1, |pre| + |T|);
  }

  lemma NoHeadingInside(pre: string, T: string, suf: string)
    requires forall p :: 1 <= p < |T| ==> !At(T + suf, NextHeading, p)
    ensures forall p :: |pre| + 1 <= p < |pre| + |T| ==> !At(pre + T + suf, NextHeading, p)
  {
    assert pre + T + suf == pre + (T + suf);
    forall p | |pre| + 1 <= p < |pre| + |T| ensures !At(pre + (T + suf), NextHeading, p) {
      AtShift(pre, T + suf, NextHeading, p - |pre|);
    }
  }

  /** The section the splice cuts out of such a document: the table, short of its last character if nothing follows. */
  lemma SectionOfSplice(pre: string, T: string, suf: string)
    requires |T| >= 10 && T[..10] == StatsHeading
    requires forall i :: 0 <= i < |pre| ==> !At(pre + StatsHeading, StatsHeading, i)
    requires forall p :: 1 <= p < |T| ==> !At(T + suf, NextHeading, p)
    requires suf == "" || At(suf, NextHeading, 0)
    ensures StatsSection(pre + T + suf) == Some(if suf == "" then T[..|T| - 1] else T)
  {
    FindsTable(pre, T, suf);
    var doc := pre + T + suf;
    Pieces(pre, T, suf);
    if suf == "" {
      assert doc[|pre|..|doc| - 1] == T[..|T| - 1];
    }
  }

  /** A written table, found by the splice in a document, is read back as the results it holds. */
  lemma ReadExistingWritten(pre: string, M: Results, suf: string)
    requires forall i :: 0 <= i < |pre| ==> !At(pre + StatsHeading, StatsHeading, i)
    requires suf == "" || At(suf, NextHeading, 0)
    requires Renderable(M)
    ensures ReadExisting(pre + RenderTable(M) + suf) == Ok(M)
  {
    var T := RenderTable(M);
    TableAfterHeading(M);
    assert T[..10] == StatsHeading;
    NoHeadingInTable(M, suf);
    SectionOfSplice(pre, T, suf);
    if suf == "" {
      ParseRenderUnterminated(M);
    } else {
      ParseRender(M);
    }
  }

  /**
    Writing over a written table replaces that table with the table of the
    merge and leaves the text before it and the text from the next heading on
    as they were.
  */
  lemma WriteOverTable(pre: string, M: Results, suf: string, latest: Results)
    requires forall i :: 0 <= i < |pre| ==> !At(pre + StatsHeading, StatsHeading, i)
    requires suf == "" || At(suf, NextHeading, 0)
    requires Renderable(M)
    ensures WriteResults(pre + RenderTable(M) + suf, latest) == Ok(pre + RenderTable(Merge(M, latest)) + suf)
  {
    var T := RenderTable(M);
    TableAfterHeading(M);
    assert T[..10] == StatsHeading;
    NoHeadingInTable(M, suf);
    var S := if suf == "" then T[..|T| - 1] else T;
    if suf == "" {
      ParseRenderUnterminated(M);
    } else {
      ParseRender(M);
    }
    WriteOverSection(pre, T, suf, S, M, latest);
  }

  lemma WriteOverSection(pre: string, T: string, suf: string, S: string, M: Results, latest: Results)
    requires |T| >= 10 && T[..10] == StatsHeading
    requires forall i :: 0 <= i < |pre| ==> !At(pre + StatsHeading, StatsHeading, i)
    requires forall p :: 1 <= p < |T| ==> !At(T + suf, NextHeading, p)
    requires suf == "" || At(suf, NextHeading, 0)
    requires S == (if suf == "" then T[..|T| - 1] else T) && ParseTable(S) == Ok(M)
    ensures WriteResults(pre + T + suf, latest) == Ok(pre + RenderTable(Merge(M, latest)) + suf)
  {
    var doc := pre + T + suf;
    FindsTable(pre, T, suf);
    SectionOfSplice(pre, T, suf);
    var e := Find(doc, NextHeading, |pre| + 1);
    WriteAt(doc, |pre|, e, S, M, latest);
    Pieces(pre, T, suf);
    var N := RenderTable(Merge(M, latest));
    if suf == "" {
      assert doc[..|pre|] + N == pre + N + suf;
    } else {
      assert doc[..|pre|] + N + doc[e..] == pre + N + suf;
    }
  }

  /** What the splice writes once it has found the section and read it. */
  lemma WriteAt(doc: string, b: nat, e: int, S: string, M: Results, latest: Results)
    requires Find(doc, StatsHeading, 0) == b
    requires Find(doc, NextHeading, b + 1) == e
    requires StatsSection(doc) == Some(S) && ParseTable(S) == Ok(M)
    ensures e > -1 ==> WriteResults(doc, latest) == Ok(doc[..b] + RenderTable(Merge(M, latest)) + doc[e..])
    ensures e == -1 ==> WriteResults(doc, latest) == Ok(doc[..b] + RenderTable(Merge(M, latest)))
  {
  }



  /** Results the table can carry: what the document already holds and what is written over it. */
  predicate WritableOver(doc: string, latest: Results) {
    Renderable(latest) && ReadExisting(doc).Ok?
    && forall k :: 0 <= k < |ReadExisting(doc).value| ==> CleanEntry(ReadExisting(doc).value[k])
  }

  /**
    A written document is some text with no heading, the table of the merge
    of what was there with the latest results, and nothing or a next heading.
  */
  lemma WrittenPieces(doc: string, latest: Results) returns (pre: string, suf: string)
    requires WritableOver(doc, latest)
    ensures forall i :: 0 <= i < |pre| ==> !At(pre + StatsHeading, StatsHeading, i)
    ensures suf == "" || At(suf, NextHeading, 0)
    ensures Renderable(Merge(ReadExisting(doc).value, latest))
    ensures WriteResults(doc, latest) == Ok(pre + RenderTable(Merge(ReadExisting(doc).value, latest)) + suf)
  {
    MergeRenderable(ReadExisting(doc).value, latest);
    if Find(doc, StatsHeading, 0) == -1 {
      pre, suf := AppendedPieces(doc, latest);
    } else {
      pre, suf := SplicedPieces(doc, latest);
    }
  }

  lemma MergeRenderable(prior: Results, latest: Results)
    requires IsDict(prior) && forall k :: 0 <= k < |prior| ==> CleanEntry(prior[k])
    requires Renderable(latest)
    ensures Renderable(Merge(prior, latest))
  {
    MergeEntries(prior, latest);
  }

  lemma AppendedPieces(doc: string, latest: Results) returns (pre: string, suf: string)
    requires Find(doc, StatsHeading, 0) == -1 && IsDict(latest)
    ensures forall i :: 0 <= i < |pre| ==> !At(pre + StatsHeading, StatsHeading, i)
    ensures suf == ""
    ensures WriteResults(doc, latest) == Ok(pre + RenderTable(Merge(ReadExisting(doc).value, latest)) + suf)
  {
    HeadingNotCompleted(doc);
    assert ReadExisting(doc).value == [];
    MergeNewKeys([], latest);
    assert [] + latest == latest;
    pre, suf := doc, "";
    assert doc + RenderTable(latest) == pre + RenderTable(latest) + suf;
  }

  lemma SplicedPieces(doc: string, latest: Results) returns (pre: string, suf: string)
    requires Find(doc, StatsHeading, 0) != -1 && ReadExisting(doc).Ok?
    ensures forall i :: 0 <= i < |pre| ==> !At(pre + StatsHeading, StatsHeading, i)
    ensures suf == "" || At(suf, NextHeading, 0)
    ensures WriteResults(doc, latest) == Ok(pre + RenderTable(Merge(ReadExisting(doc).value, latest)) + suf)
  {
    pre, suf := Boundaries(doc);
    SplicedResult(doc, latest);
  }

  /** The text before the section and the text from the next heading on, or nothing. */
  lemma Boundaries(doc: string) returns (pre: string, suf: string)
    requires Find(doc, StatsHeading, 0) != -1
    ensures var b := Find(doc, StatsHeading, 0);
            var e := Find(doc, NextHeading, b + 1);
            pre == doc[..b] && suf == (if e == -1 then "" else doc[e..])
    ensures forall i :: 0 <= i < |pre| ==> !At(pre + StatsHeading, StatsHeading, i)
    ensures suf == "" || At(suf, NextHeading, 0)
  {
    var b := Find(doc, StatsHeading, 0);
    var e := Find(doc, NextHeading, b + 1);
    HeadingPrefix(doc);
    pre := doc[..b];
    if e == -1 {
      suf := "";
    } else {
      suf := doc[e..];
      assert doc == doc[..e] + suf;
      AtShift(doc[..e], suf, NextHeading, 0);
    }
  }

  lemma SplicedResult(doc: string, latest: Results)
    requires Find(doc, StatsHeading, 0) != -1 && ReadExisting(doc).Ok?
    ensures var b := Find(doc, StatsHeading, 0);
            var e := Find(doc, NextHeading, b + 1);
            WriteResults(doc, latest)
            == Ok(doc[..b] + RenderTable(Merge(ReadExisting(doc).value, latest)) + (if e == -1 then "" else doc[e..]))
  {
    var b := Find(doc, StatsHeading, 0);
    var e := Find(doc, NextHeading, b + 1);
    assert ParseTable(StatsSection(doc).value) == Ok(ReadExisting(doc).value);
    WriteAt(doc, b, e, StatsSection(doc).value, ReadExisting(doc).value, latest);
    var T := RenderTable(Merge(ReadExisting(doc).value, latest));
    Glue(WriteResults(doc, latest), doc[..b], T, if e == -1 then "" else doc[e..], e == -1);
  }

  lemma Glue(w: Result<string>, pre: string, T: string, tail: string, last: bool)
    requires !last ==> w == Ok(pre + T + tail)
    requires last ==> w == Ok(pre + T) && tail == ""
    ensures w == Ok(pre + T + tail)
  {
    if last {
      assert pre + T + "" == pre + T;
    }
  }

  /** Writing the same results a second time gives the same document. */
  lemma WriteIdempotent(doc: string, latest: Results)
    requires WritableOver(doc, latest)
    ensures WriteResults(doc, latest).Ok?
    ensures WriteResults(WriteResults(doc, latest).value, latest) == WriteResults(doc, latest)
  {
    var pre, suf := WrittenPieces(doc, latest);
    var O := ReadExisting(doc).value;
    WriteOverTable(pre, Merge(O, latest), suf, latest);
    MergeIdempotent(O, latest);
  }

  /**
    The written document holds the merge: reading its section gives the old
    results with the latest ones over them.
  */
  lemma WriteThenRead(doc: string, latest: Results)
    requires WritableOver(doc, latest)
    ensures WriteResults(doc, latest).Ok?
    ensures ReadExisting(WriteResults(doc, latest).value) == Ok(Merge(ReadExisting(doc).value, latest))
  {
    var pre, suf := WrittenPieces(doc, latest);
    ReadExistingWritten(pre, Merge(ReadExisting(doc).value, latest), suf);
  }
}
