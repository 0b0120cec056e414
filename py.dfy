/**
  The Python built-ins the harness leans on, written out over `string`
  (`seq<char>`): `str.find`, slicing, `str.split`, `str.strip`,
  `str.splitlines`, `int()` and `str()` of an int, together with the
  exceptions that escape the core uncaught.
*/
module Py {

  datatype Option<+T> = None | Some(value: T)

  /** The exceptions the core raises and does not catch. */
  datatype Fault =
    | UnpackMismatch(expected: nat, got: nat) // ValueError: wrong number of values to unpack
    | UnknownPart(part: string)               // ValueError("Unknown part ...") from from_table
    | MissingPartOne                          // AssertionError: a "two" row with no "one" row before it
    | InvalidLiteral(text: string)            // ValueError from int()

  datatype Result<+T> = Ok(value: T) | Err(fault: Fault)

  // ----- character classes -------------------------------------------------

  /** `c.isspace()` */
  predicate IsSpace(c: char) {
    c == ' ' || ('\t' <= c <= '\r') || ('\U{1C}' <= c <= '\U{1F}')
    || c == '\U{85}' || c == '\U{A0}' || c == '\U{1680}' || ('\U{2000}' <= c <= '\U{200A}')
    || c == '\U{2028}' || c == '\U{2029}' || c == '\U{202F}' || c == '\U{205F}' || c == '\U{3000}'
  }

  /** The characters `str.splitlines()` treats as line boundaries ("\r\n" counts once). */
  predicate IsLineBreak(c: char) {
    c == '\n' || c == '\r' || c == '\U{0B}' || c == '\U{0C}' || c == '\U{1C}' || c == '\U{1D}'
    || c == '\U{1E}' || c == '\U{85}' || c == '\U{2028}' || c == '\U{2029}'
  }

  predicate BreakFree(s: string) {
    forall i :: 0 <= i < |s| ==> !IsLineBreak(s[i])
  }

  predicate AllSpace(s: string) {
    forall i :: 0 <= i < |s| ==> IsSpace(s[i])
  }

  lemma AllSpaceCons(c: char, t: string)
    requires IsSpace(c) && AllSpace(t)
    ensures AllSpace([c] + t)
  {
    assert forall i :: 0 < i < |[c] + t| ==> ([c] + t)[i] == t[i - 1];
  }

  lemma AllSpaceSnoc(t: string, c: char)
    requires AllSpace(t) && IsSpace(c)
    ensures AllSpace(t + [c])
  {
    assert forall i :: 0 <= i < |t| ==> (t + [c])[i] == t[i];
  }

  /** Neither begins nor ends with whitespace. */
  predicate Stripped(s: string) {
    |s| == 0 || (!IsSpace(s[0]) && !IsSpace(s[|s| - 1]))
  }

  // ----- find --------------------------------------------------------------

  /** `pat` occurs in `s` at index `i`. */
  predicate At(s: string, pat: string, i: nat) {
    i + |pat| <= |s| && s[i..i + |pat|] == pat
  }

  /** `s.find(pat, start)`: the first index at or after `start` where `pat` occurs, or -1. */
  function Find(s: string, pat: string, start: nat): (r: int)
    ensures r == -1 || (start <= r && At(s, pat, r))
    ensures r == -1 ==> forall i :: start <= i ==> !At(s, pat, i)
    ensures r != -1 ==> forall i :: start <= i < r ==> !At(s, pat, i)
    decreases |s| - start
  {
    if start + |pat| > |s| then -1
    else if At(s, pat, start) then start
    else Find(s, pat, start + 1)
  }

  lemma FindIs(s: string, pat: string, start: nat, i: nat)
    requires start <= i && At(s, pat, i)
    requires forall j :: start <= j < i ==> !At(s, pat, j)
    ensures Find(s, pat, start) == i
  {
  }

  lemma FindNone(s: string, pat: string, start: nat)
    requires forall j :: start <= j ==> !At(s, pat, j)
    ensures Find(s, pat, start) == -1
  {
  }

  /** Searching for one character fails exactly when the character does not occur. */
  lemma FindCharAbsent(s: string, c: char)
    ensures Find(s, [c], 0) == -1 <==> c !in s
  {
    if Find(s, [c], 0) == -1 {
      forall i | 0 <= i < |s| ensures s[i] != c {
        assert !At(s, [c], i);
        assert s[i..i + 1] == [s[i]];
      }
    } else {
      var i := Find(s, [c], 0);
      assert s[i..i + 1] == [c];
      assert s[i] == s[i..i + 1][0];
    }
  }

  /** Occurrences after a prefix are occurrences in the suffix that follows it. */
  lemma AtShift(a: string, b: string, pat: string, i: nat)
    ensures At(a + b, pat, |a| + i) <==> At(b, pat, i)
  {
    if |a| + i + |pat| <= |a + b| {
      assert (a + b)[|a| + i..|a| + i + |pat|] == b[i..i + |pat|];
    }
  }

  // ----- slicing -----------------------------------------------------------

  /** How Python resolves a slice bound against a length: negative counts from the end, then clamp. */
  function Clamp(i: int, n: nat): (r: nat)
    ensures r <= n
    ensures 0 <= i <= n ==> r == i
    ensures -(n as int) <= i < 0 ==> r == n + i
    ensures i > n ==> r == n
    ensures i < -(n as int) ==> r == 0
  {
    if i < 0 then (if i + n < 0 then 0 else i + n) else if i > n then n else i
  }

  /** `s[start:stop]` */
  function Slice<T>(s: seq<T>, start: int, stop: int): (r: seq<T>)
    ensures Clamp(start, |s|) <= Clamp(stop, |s|) ==> r == s[Clamp(start, |s|)..Clamp(stop, |s|)]
    ensures Clamp(start, |s|) > Clamp(stop, |s|) ==> r == []
  {
    var a, b := Clamp(start, |s|), Clamp(stop, |s|);
    if a < b then s[a..b] else []
  }

  // ----- split -------------------------------------------------------------

  /** `sep.join(parts)` */
  function Join(parts: seq<string>, sep: string): string {
    if |parts| == 0 then ""
    else if |parts| == 1 then parts[0]
    else parts[0] + sep + Join(parts[1..], sep)
  }

  /**
    `s.split(sep)`: the pieces between the occurrences of `sep`, found left to
    right without overlap. No piece contains `sep`, and joining the pieces with
    `sep` gives `s` back.
  */
  function Split(s: string, sep: string): (r: seq<string>)
    requires |sep| > 0
    ensures |r| >= 1
    ensures Join(r, sep) == s
    ensures forall k :: 0 <= k < |r| ==> Find(r[k], sep, 0) == -1
    ensures |r| > 1 ==> |r[0]| == Find(s, sep, 0)
    decreases |s|
  {
    var i := Find(s, sep, 0);
    if i == -1 then [s]
    else
      var rest := Split(s[i + |sep|..], sep);
      NoneBefore(s, sep, i);
      assert s == s[..i] + sep + s[i + |sep|..] by {
        assert s[i..i + |sep|] == sep;
        assert s == s[..i] + s[i..i + |sep|] + s[i + |sep|..];
      }
      assert ([s[..i]] + rest)[1..] == rest;
      [s[..i]] + rest
  }

  /**
    Every piece but the last ends where the first occurrence of `sep` in the
    text from that piece on begins.
  */
  predicate FirstCuts(r: seq<string>, sep: string) {
    forall k :: 0 <= k < |r| - 1 ==> Find(Join(r[k..], sep), sep, 0) == |r[k]|
  }

  /** `split` cuts at the first occurrence each time, even where `sep` overlaps itself. */
  lemma {:induction false} SplitCuts(s: string, sep: string)
    requires |sep| > 0
    ensures FirstCuts(Split(s, sep), sep)
    decreases |s|
  {
    var i := Find(s, sep, 0);
    if i != -1 {
      var r, rest := Split(s, sep), Split(s[i + |sep|..], sep);
      assert r == [s[..i]] + rest;
      SplitCuts(s[i + |sep|..], sep);
      ConsSlices(s[..i], rest);
      forall k | 0 <= k < |r| - 1 ensures Find(Join(r[k..], sep), sep, 0) == |r[k]| {
        if k == 0 {
          assert Join(r[k..], sep) == s;
        } else {
          assert r[k..] == rest[k - 1..] && r[k] == rest[k - 1];
        }
      }
    }
  }

  /**
    Python's split is the only list of pieces with these properties: any
    `sep`-free pieces that join to `s` and are cut at the first occurrences
    are `s.split(sep)`.
  */
  lemma {:induction false} SplitUnique(s: string, sep: string, r: seq<string>)
    requires |sep| > 0 && |r| >= 1 && Join(r, sep) == s
    requires forall k :: 0 <= k < |r| ==> Find(r[k], sep, 0) == -1
    requires FirstCuts(r, sep)
    ensures r == Split(s, sep)
    decreases |r|
  {
    if |r| > 1 {
      var rest := r[1..];
      assert r[0..] == r;
      SplitAt(s, sep, r[0], Join(rest, sep));
      FirstCutsTail(r, sep);
      SplitUnique(Join(rest, sep), sep, rest);
    }
  }

  /** When `sep` first occurs right after `a`, the split is `a` and then the split of the rest. */
  lemma SplitAt(s: string, sep: string, a: string, b: string)
    requires |sep| > 0 && s == a + sep + b && Find(s, sep, 0) == |a|
    ensures Split(s, sep) == [a] + Split(b, sep)
  {
    assert s[..|a|] == a;
    assert s[|a| + |sep|..] == b;
  }

  lemma FirstCutsTail(r: seq<string>, sep: string)
    requires |r| > 0 && FirstCuts(r, sep)
    ensures FirstCuts(r[1..], sep)
  {
    forall k | 0 <= k < |r[1..]| - 1
      ensures Find(Join(r[1..][k..], sep), sep, 0) == |r[1..][k]|
    {
      assert r[1..][k..] == r[k + 1..];
    }
  }

  lemma NoneBefore(s: string, sep: string, i: nat)
    requires |sep| > 0 && i <= |s|
    requires forall j :: 0 <= j < i ==> !At(s, sep, j)
    ensures Find(s[..i], sep, 0) == -1
  {
    forall j | 0 <= j ensures !At(s[..i], sep, j) {
      if j + |sep| <= i {
        assert !At(s, sep, j);
        assert s[..i][j..j + |sep|] == s[j..j + |sep|];
      }
    }
    FindNone(s[..i], sep, 0);
  }

  /** `s.split(sep, 1)` */
  function SplitOnce(s: string, sep: string): (r: seq<string>)
    requires |sep| > 0
    ensures |r| == 1 || |r| == 2
    ensures |r| == 1 <==> Find(s, sep, 0) == -1
    ensures |r| == 1 ==> r[0] == s
    ensures |r| == 2 ==> r[0] + sep + r[1] == s && Find(r[0], sep, 0) == -1
    ensures |r| == 2 ==> |r[0]| == Find(s, sep, 0)
  {
    var i := Find(s, sep, 0);
    if i == -1 then [s]
    else
      NoneBefore(s, sep, i);
      assert s == s[..i] + sep + s[i + |sep|..] by {
        assert s[i..i + |sep|] == sep;
        assert s == s[..i] + s[i..i + |sep|] + s[i + |sep|..];
      }
      [s[..i], s[i + |sep|..]]
  }

  /** A string without `sep` splits into itself alone. */
  lemma SplitWhole(s: string, sep: string)
    requires |sep| > 0 && Find(s, sep, 0) == -1
    ensures Split(s, sep) == [s]
  {
  }

  /** When `sep` first occurs right after `a`, splitting peels `a` off. */
  lemma SplitPeel(a: string, sep: string, b: string)
    requires |sep| > 0
    requires forall i :: 0 <= i < |a| ==> !At(a + sep + b, sep, i)
    ensures Split(a + sep + b, sep) == [a] + Split(b, sep)
  {
    var s := a + sep + b;
    assert s[|a|..|a| + |sep|] == sep;
    FindIs(s, sep, 0, |a|);
    assert s[..|a|] == a;
    assert s[|a| + |sep|..] == b;
  }

  // ----- strip -------------------------------------------------------------

  /** `s.lstrip()` */
  function LStrip(s: string): (r: string)
    ensures |r| <= |s| && r == s[|s| - |r|..] && AllSpace(s[..|s| - |r|])
    ensures |r| > 0 ==> !IsSpace(r[0])
    decreases |s|
  {
    if |s| > 0 && IsSpace(s[0]) then
      var r := LStrip(s[1..]);
      assert s[..|s| - |r|] == [s[0]] + s[1..][..|s| - 1 - |r|];
      AllSpaceCons(s[0], s[1..][..|s| - 1 - |r|]);
      r
    else s
  }

  /** `s.rstrip()` */
  function RStrip(s: string): (r: string)
    ensures |r| <= |s| && r == s[..|r|] && AllSpace(s[|r|..])
    ensures |r| > 0 ==> !IsSpace(r[|r| - 1])
    decreases |s|
  {
    if |s| > 0 && IsSpace(s[|s| - 1]) then
      var r := RStrip(s[..|s| - 1]);
      assert s[|r|..] == s[..|s| - 1][|r|..] + [s[|s| - 1]];
      AllSpaceSnoc(s[..|s| - 1][|r|..], s[|s| - 1]);
      r
    else s
  }

  /**
    `s.strip()`: `s` with its leading and trailing whitespace removed, and
    nothing else; a string that is already stripped is returned unchanged.
  */
  function Strip(s: string): (r: string)
    ensures Stripped(r)
    ensures exists i, j :: 0 <= i <= j <= |s| && r == s[i..j] && AllSpace(s[..i]) && AllSpace(s[j..])
    ensures Stripped(s) ==> r == s
  {
    var l := LStrip(s);
    var r := RStrip(l);
    StripBounds(s, l, r);
    r
  }

  /** Where the two halves of `Strip` cut: `s` is spaces, then `r`, then spaces. */
  lemma StripBounds(s: string, l: string, r: string)
    requires |l| <= |s| && l == s[|s| - |l|..] && AllSpace(s[..|s| - |l|])
    requires |r| <= |l| && r == l[..|r|] && AllSpace(l[|r|..])
    ensures var i := |s| - |l|;
            0 <= i <= i + |r| <= |s| && r == s[i..i + |r|] && AllSpace(s[..i]) && AllSpace(s[i + |r|..])
  {
    var i := |s| - |l|;
    assert s[i + |r|..] == l[|r|..];
  }

  lemma StripLeftPadded(c: string)
    requires Stripped(c)
    ensures Strip(" " + c) == c
  {
    var s := " " + c;
    assert s[1..] == c;
    assert LStrip(s) == LStrip(c);
    assert LStrip(c) == c;
    assert RStrip(c) == c;
  }

  lemma StripRightPadded(c: string)
    requires Stripped(c)
    ensures Strip(c + " ") == c
  {
    var s := c + " ";
    assert s[..|s| - 1] == c;
    if |c| > 0 {
      assert s[0] == c[0];
      assert LStrip(s) == s;
    } else {
      assert s[1..] == "";
      assert LStrip(s) == "";
      assert RStrip("") == "";
    }
    assert RStrip(s) == RStrip(c);
    assert RStrip(c) == c;
  }

  // ----- splitlines --------------------------------------------------------

  /** The first line boundary at or after `i`, or `|s|`. */
  function LineEnd(s: string, i: nat): (j: nat)
    requires i <= |s|
    ensures i <= j <= |s|
    ensures forall k :: i <= k < j ==> !IsLineBreak(s[k])
    ensures j < |s| ==> IsLineBreak(s[j])
    decreases |s| - i
  {
    if i == |s| || IsLineBreak(s[i]) then i else LineEnd(s, i + 1)
  }

  /** How many characters the boundary at `i` takes: "\r\n" is one boundary. */
  function BreakWidth(s: string, i: nat): nat
    requires i < |s|
  {
    if s[i] == '\r' && i + 1 < |s| && s[i + 1] == '\n' then 2 else 1
  }

  /** `s.splitlines()`: the lines of `s` without their boundaries, no trailing empty line. */
  function SplitLines(s: string): (r: seq<string>)
    ensures forall k :: 0 <= k < |r| ==> BreakFree(r[k])
    ensures |r| == 0 <==> |s| == 0
    decreases |s|
  {
    if |s| == 0 then []
    else
      var i := LineEnd(s, 0);
      if i == |s| then [s]
      else [s[..i]] + SplitLines(s[i + BreakWidth(s, i)..])
  }

  /** Each line followed by "\n": the way the report is written out. */
  function Unlines(ls: seq<string>): string {
    if ls == [] then "" else ls[0] + "\n" + Unlines(ls[1..])
  }

  lemma UnlinesAppend(ls: seq<string>, ms: seq<string>)
    ensures Unlines(ls + ms) == Unlines(ls) + Unlines(ms)
  {
    if ls != [] {
      assert (ls + ms)[0] == ls[0];
      assert (ls + ms)[1..] == ls[1..] + ms;
      UnlinesAppend(ls[1..], ms);
      calc {
        Unlines(ls + ms);
        ls[0] + "\n" + Unlines(ls[1..] + ms);
        ls[0] + "\n" + (Unlines(ls[1..]) + Unlines(ms));
        (ls[0] + "\n" + Unlines(ls[1..])) + Unlines(ms);
        Unlines(ls) + Unlines(ms);
      }
    } else {
      assert ls + ms == ms;
    }
  }

  /**
    `b` is one whole line boundary in front of `rest`: "\r\n", or a single
    boundary character, where a "\r" is not followed by "\n".
  */
  predicate Boundary(b: string, rest: string) {
    || b == "\r\n"
    || (|b| == 1 && IsLineBreak(b[0]) && !(b == "\r" && |rest| > 0 && rest[0] == '\n'))
  }

  /** A line ended by a boundary is split off whole, the boundary dropped. */
  lemma SplitLinesBreak(l: string, b: string, rest: string)
    requires BreakFree(l) && Boundary(b, rest)
    ensures SplitLines(l + b + rest) == [l] + SplitLines(rest)
  {
    var s := l + b + rest;
    assert s[|l|] == b[0];
    assert LineEnd(s, 0) == |l| by { LineEndAt(s, 0, |l|); }
    if b == "\r\n" {
      assert s[|l| + 1] == '\n';
    } else if |rest| > 0 {
      assert s[|l| + 1] == rest[0];
    }
    assert BreakWidth(s, |l|) == |b|;
    assert s[..|l|] == l;
    assert s[|l| + |b|..] == rest;
  }

  /**
    Every text is empty, one line without a boundary, or a line followed by a
    boundary: so `SplitLinesBreak` and `SplitLinesSingle` together determine
    `SplitLines` on every input.
  */
  lemma SplitLinesCases(s: string)
    ensures || s == "" || BreakFree(s)
            || exists l, b, rest :: s == l + b + rest && BreakFree(l) && Boundary(b, rest)
  {
    if s != "" {
      var i := LineEnd(s, 0);
      if i < |s| {
        var w := BreakWidth(s, i);
        var l, b, rest := s[..i], s[i..i + w], s[i + w..];
        assert s == l + b + rest;
        assert BreakFree(l);
        assert b[0] == s[i];
        if w == 1 && |rest| > 0 {
          assert rest[0] == s[i + 1];
        }
        assert Boundary(b, rest);
      }
    }
  }

  /** A non-empty text without boundaries is one line. */
  lemma SplitLinesSingle(l: string)
    requires l != "" && BreakFree(l)
    ensures SplitLines(l) == [l]
  {
    LineEndAt(l, 0, |l|);
  }

  lemma LineEndAt(s: string, i: nat, j: nat)
    requires i <= j <= |s|
    requires forall k :: i <= k < j ==> !IsLineBreak(s[k])
    requires j == |s| || IsLineBreak(s[j])
    ensures LineEnd(s, i) == j
    decreases j - i
  {
    if i < j {
      LineEndAt(s, i + 1, j);
    }
  }

  /** Splitting what `Unlines` wrote gives the lines back. */
  lemma {:induction false} SplitLinesUnlines(ls: seq<string>)
    requires forall k :: 0 <= k < |ls| ==> BreakFree(ls[k])
    ensures SplitLines(Unlines(ls)) == ls
  {
    if ls != [] {
      SplitLinesBreak(ls[0], "\n", Unlines(ls[1..]));
      SplitLinesUnlines(ls[1..]);
    }
  }

  /** Dropping the final "\n" of what `Unlines` wrote: the lines still come back when the last is not empty. */
  lemma SplitLinesDropLast(ls: seq<string>)
    requires ls != [] && ls[|ls| - 1] != ""
    requires forall k :: 0 <= k < |ls| ==> BreakFree(ls[k])
    ensures |Unlines(ls)| > 0
    ensures SplitLines(Unlines(ls)[..|Unlines(ls)| - 1]) == ls == SplitLines(Unlines(ls))
  {
    var init, last := ls[..|ls| - 1], ls[|ls| - 1];
    InitLast(ls);
    UnlinesDropLast(ls);
    SplitLinesUnterminated(init, last);
    SplitLinesUnlines(ls);
  }

  /** The suffixes of `[x] + rest` past the first are the suffixes of `rest`. */
  lemma ConsSlices<T>(x: T, rest: seq<T>)
    ensures ([x] + rest)[0..] == [x] + rest && ([x] + rest)[1..] == rest
    ensures forall k :: 1 <= k < |[x] + rest| ==> ([x] + rest)[k..] == rest[k - 1..]
  {
  }

  lemma HeadTail<T>(s: seq<T>)
    requires s != []
    ensures s == [s[0]] + s[1..]
  {
  }

  lemma HeadTailSnoc<T>(s: seq<T>, x: T)
    requires s != []
    ensures [s[0]] + (s[1..] + [x]) == s + [x]
  {
    HeadTail(s);
  }

  lemma Regroup4<T>(a: seq<T>, b: seq<T>, c: seq<T>, d: seq<T>)
    ensures a + b + c + d == a + b + (c + d)
  {
  }

  lemma Regroup5<T>(a: seq<T>, b: seq<T>, c: seq<T>, d: seq<T>, e: seq<T>)
    ensures a + b + c + d + e == a + b + (c + d + e)
  {
  }

  lemma InitLast<T>(ls: seq<T>)
    requires ls != []
    ensures ls[..|ls| - 1] + [ls[|ls| - 1]] == ls
    ensures forall k :: 0 <= k < |ls| - 1 ==> ls[..|ls| - 1][k] == ls[k]
  {
  }

  /** The same with the final "\n" missing, as long as the last line is not empty. */
  lemma {:induction false} SplitLinesUnterminated(ls: seq<string>, last: string)
    requires forall k :: 0 <= k < |ls| ==> BreakFree(ls[k])
    requires BreakFree(last) && last != ""
    ensures SplitLines(Unlines(ls) + last) == ls + [last]
  {
    if ls == [] {
      assert Unlines(ls) + last == last;
      LineEndAt(last, 0, |last|);
    } else {
      Regroup4(ls[0], "\n", Unlines(ls[1..]), last);
      SplitLinesBreak(ls[0], "\n", Unlines(ls[1..]) + last);
      SplitLinesUnterminated(ls[1..], last);
      HeadTailSnoc(ls, last);
    }
  }

  /** Only no lines write nothing, and written lines end in a line break. */
  lemma UnlinesEnds(ls: seq<string>)
    ensures Unlines(ls) == [] <==> ls == []
    ensures ls != [] ==> Unlines(ls)[|Unlines(ls)| - 1] == '\n'
  {
    if ls != [] {
      UnlinesDropLast(ls);
      InitLast(ls);
      UnlinesAppend(ls[..|ls| - 1], [ls[|ls| - 1]]);
    }
  }

  /** Dropping the final character of `Unlines(ls)` leaves the last line unterminated. */
  lemma UnlinesDropLast(ls: seq<string>)
    requires ls != []
    ensures |Unlines(ls)| > 0
    ensures Unlines(ls)[..|Unlines(ls)| - 1] == Unlines(ls[..|ls| - 1]) + ls[|ls| - 1]
  {
    var init, last := ls[..|ls| - 1], ls[|ls| - 1];
    assert ls == init + [last];
    UnlinesAppend(init, [last]);
    assert Unlines([last]) == last + "\n" + Unlines([]);
  }

  // ----- integers ----------------------------------------------------------

  predicate IsDigit(c: char) {
    '0' <= c <= '9'
  }

  predicate AllDigits(s: string) {
    forall i :: 0 <= i < |s| ==> IsDigit(s[i])
  }

  function DigitChar(d: nat): (c: char)
    requires d < 10
    ensures IsDigit(c)
  {
    ('0' as int + d) as char
  }

  /** The number a string of decimal digits denotes. */
  function DigitsValue(s: string): nat
    requires AllDigits(s)
  {
    if |s| == 0 then 0
    else DigitsValue(s[..|s| - 1]) * 10 + ((s[|s| - 1] as int) - ('0' as int))
  }

  /** `str(n)` for `n >= 0`: the shortest decimal spelling of `n`. */
  function NatToString(n: nat): (s: string)
    ensures |s| > 0 && AllDigits(s)
    ensures DigitsValue(s) == n
    ensures |s| > 1 ==> s[0] != '0'
  {
    if n < 10 then [DigitChar(n)]
    else
      var s := NatToString(n / 10) + [DigitChar(n % 10)];
      assert s[..|s| - 1] == NatToString(n / 10);
      s
  }

  /** `str(n)` */
  function IntToString(n: int): string {
    if n < 0 then "-" + NatToString(-n) else NatToString(n)
  }

  /** Python's digit grammar for a decimal literal: digit ("_"? digit)* */
  predicate IsDigitGroup(s: string) {
    && |s| > 0 && IsDigit(s[0]) && IsDigit(s[|s| - 1])
    && (forall i :: 0 <= i < |s| ==> IsDigit(s[i]) || s[i] == '_')
    && (forall i :: 0 <= i < |s| - 1 ==> s[i] == '_' ==> s[i + 1] != '_')
  }

  /** The digits of a digit group, its underscores removed. */
  function DigitsOf(s: string): (d: string)
    requires forall i :: 0 <= i < |s| ==> IsDigit(s[i]) || s[i] == '_'
    ensures AllDigits(d)
    ensures AllDigits(s) ==> d == s
  {
    if |s| == 0 then ""
    else (if s[0] == '_' then "" else [s[0]]) + DigitsOf(s[1..])
  }

  /** What follows an optional leading sign. */
  function Unsigned(t: string): string {
    if |t| > 0 && (t[0] == '-' || t[0] == '+') then t[1..] else t
  }

  /**
    The four information separators U+001C..U+001F: `isspace()` holds for
    them, but `int()` does not skip them, so they make any literal invalid.
  */
  predicate IsInfoSeparator(c: char) {
    '\U{1C}' <= c <= '\U{1F}'
  }

  predicate HasInfoSeparator(s: string) {
    exists i :: 0 <= i < |s| && IsInfoSeparator(s[i])
  }

  /** The whitespace `int()` skips around a literal. */
  predicate IntSpace(c: char) {
    IsSpace(c) && !IsInfoSeparator(c)
  }

  predicate AllIntSpace(s: string) {
    forall i :: 0 <= i < |s| ==> IntSpace(s[i])
  }

  /**
    `int(s)`: surrounding whitespace is ignored, then an optional sign and a
    digit group; anything else is a `ValueError` (here `None`).
  */
  function ParseInt(s: string): (r: Option<int>)
    ensures r.Some? <==> !HasInfoSeparator(s) && IsDigitGroup(Unsigned(Strip(s)))
  {
    if HasInfoSeparator(s) then None else ParseStripped(Strip(s))
  }

  /** Whitespace that `int()` skips may pad any literal: the result is that of the literal alone. */
  lemma ParsePadded(w1: string, t: string, w2: string)
    requires AllIntSpace(w1) && AllIntSpace(w2) && Stripped(t)
    ensures ParseInt(w1 + t + w2) == ParseStripped(t)
  {
    assert AllSpace(w1) && AllSpace(w2);
    StripPadded(w1, t, w2);
    if HasInfoSeparator(t) {
      SeparatorInvalid(t);
    } else {
      SeparatorFreePadded(w1, t, w2);
    }
  }

  /** A literal holding an information separator is invalid. */
  lemma SeparatorInvalid(t: string)
    requires Stripped(t) && HasInfoSeparator(t)
    ensures ParseStripped(t) == None
  {
    var k :| 0 <= k < |t| && IsInfoSeparator(t[k]);
    if Unsigned(t) == t[1..] {
      assert Unsigned(t)[k - 1] == t[k];
    } else {
      assert Unsigned(t)[k] == t[k];
    }
  }

  lemma SeparatorFreePadded(w1: string, t: string, w2: string)
    requires AllIntSpace(w1) && AllIntSpace(w2) && !HasInfoSeparator(t)
    ensures !HasInfoSeparator(w1 + t + w2)
  {
    var s := w1 + t + w2;
    forall i | 0 <= i < |s| ensures !IsInfoSeparator(s[i]) {
      if i < |w1| {
        assert s[i] == w1[i];
      } else if i < |w1| + |t| {
        assert s[i] == t[i - |w1|];
      } else {
        assert s[i] == w2[i - |w1| - |t|];
      }
    }
  }

  /** `int(w1 + str(n) + w2) == n` for whitespace `w1`, `w2` that `int()` skips. */
  lemma ParseIntPadded(w1: string, n: int, w2: string)
    requires AllIntSpace(w1) && AllIntSpace(w2)
    ensures ParseInt(w1 + IntToString(n) + w2) == Some(n)
  {
    IntToStringStripped(n);
    ParsePadded(w1, IntToString(n), w2);
    ParseStrippedToString(n);
  }

  /** `strip()` removes exactly the whitespace padding around a stripped text. */
  lemma StripPadded(w1: string, t: string, w2: string)
    requires AllSpace(w1) && AllSpace(w2) && Stripped(t)
    ensures Strip(w1 + t + w2) == t
  {
    var s := w1 + t + w2;
    if t == "" {
      assert s == w1 + w2;
      var l := LStrip(s);
      if |l| > 0 {
        assert l[0] == s[|s| - |l|];
        AllSpaceConcat(w1, w2);
      }
      assert RStrip("") == "";
    } else {
      assert s == w1 + (t + w2);
      LStripSpaces(w1, t + w2);
      RStripSpaces(t, w2);
    }
  }

  lemma AllSpaceConcat(a: string, b: string)
    requires AllSpace(a) && AllSpace(b)
    ensures AllSpace(a + b)
  {
    assert forall i :: |a| <= i < |a + b| ==> (a + b)[i] == b[i - |a|];
  }

  lemma {:induction false} LStripSpaces(w: string, u: string)
    requires AllSpace(w) && (u == "" || !IsSpace(u[0]))
    ensures LStrip(w + u) == u
    decreases |w|
  {
    if w == "" {
      assert w + u == u;
    } else {
      assert (w + u)[0] == w[0];
      assert (w + u)[1..] == w[1..] + u;
      LStripSpaces(w[1..], u);
    }
  }

  lemma {:induction false} RStripSpaces(u: string, w: string)
    requires AllSpace(w) && (u == "" || !IsSpace(u[|u| - 1]))
    ensures RStrip(u + w) == u
    decreases |w|
  {
    if w == "" {
      assert u + w == u;
    } else {
      assert (u + w)[|u + w| - 1] == w[|w| - 1];
      assert (u + w)[..|u + w| - 1] == u + w[..|w| - 1];
      RStripSpaces(u, w[..|w| - 1]);
    }
  }

  /** `int` of a text already stripped of surrounding whitespace. */
  function ParseStripped(t: string): (r: Option<int>)
    ensures r.Some? <==> IsDigitGroup(Unsigned(t))
  {
    var body := Unsigned(t);
    if !IsDigitGroup(body) then None
    else
      var v: int := DigitsValue(DigitsOf(body));
      Some(if |t| > 0 && t[0] == '-' then -v else v)
  }

  /** `int(str(n)) == n` */
  lemma ParseIntToString(n: int)
    ensures ParseInt(IntToString(n)) == Some(n)
  {
    ParseIntPadded("", n, "");
    assert "" + IntToString(n) + "" == IntToString(n);
  }

  lemma ParseStrippedToString(n: int)
    ensures ParseStripped(IntToString(n)) == Some(n)
  {
    var s := IntToString(n);
    var digits := NatToString(if n < 0 then -n else n);
    assert Unsigned(s) == digits && (n < 0 <==> s[0] == '-') by {
      if n < 0 { assert s[1..] == digits; } else { assert IsDigit(digits[0]); }
    }
    ParseSigned(s, digits);
  }

  /** A stripped text that is an optional sign and then plain digits reads as their value. */
  lemma ParseSigned(s: string, digits: string)
    requires Unsigned(s) == digits
    requires |digits| > 0 && AllDigits(digits)
    ensures var v: int := DigitsValue(digits); ParseStripped(s) == Some(if s[0] == '-' then -v else v)
  {
    DigitsAreGroup(digits);
    assert DigitsOf(digits) == digits;
  }

  lemma IntToStringStripped(n: int)
    ensures Stripped(IntToString(n))
  {
    var s := IntToString(n);
    var digits := NatToString(if n < 0 then -n else n);
    assert IsDigit(digits[|digits| - 1]);
    assert s[|s| - 1] == digits[|digits| - 1];
    assert s[0] == '-' || IsDigit(s[0]);
  }

  lemma DigitsAreGroup(d: string)
    requires |d| > 0 && AllDigits(d)
    ensures IsDigitGroup(d)
  {
  }
}
