/**
  The result types of advent_of_action/main.py and the Python `dict` that holds
  them. A dict is a sequence of entries in insertion order: assigning an
  existing key replaces its value where it stands, assigning a new key
  appends it, and `{**old, **new}` assigns the new entries over the old ones one by
  one, so a key in both keeps its old position and takes the new value.
*/
module Records {
  import opened Py

  /** `(day, language, person)` */
  datatype Run = Run(day: string, language: string, person: string)

  /** `(seconds, kilobytes, notes)`, all three as the text written in the report. */
  datatype Stat = Stat(seconds: string, kilobytes: string, notes: string)

  /** Part one's stat, then part two's. */
  datatype Stats = Stats(one: Stat, two: Stat)

  datatype Entry = Entry(key: Run, stats: Stats)

  /** `dict[Run, Stats]` in iteration order. */
  type Results = seq<Entry>

  function Keys(d: Results): (ks: seq<Run>)
    ensures |ks| == |d|
    ensures forall i :: 0 <= i < |d| ==> ks[i] == d[i].key
  {
    if d == [] then [] else [d[0].key] + Keys(d[1..])
  }

  /** No key occurs twice: what every Python dict satisfies. */
  predicate IsDict(d: Results) {
    forall i, j :: 0 <= i < j < |d| ==> d[i].key != d[j].key
  }

  /** `d.get(k)` */
  function Get(d: Results, k: Run): (r: Option<Stats>)
    ensures r.None? <==> k !in Keys(d)
    ensures r.Some? ==> Entry(k, r.value) in d
    ensures IsDict(d) ==> forall i :: 0 <= i < |d| && d[i].key == k ==> r == Some(d[i].stats)
  {
    if d == [] then None
    else if d[0].key == k then Some(d[0].stats)
    else
      assert Keys(d) == [d[0].key] + Keys(d[1..]);
      Get(d[1..], k)
  }

  /**
    `d[k] = v`: a key already present keeps its place; a new key is appended.
    What the lookups then give is `PutGet`.
  */
  function Put(d: Results, k: Run, v: Stats): (r: Results)
    ensures k in Keys(d) ==> Keys(r) == Keys(d)
    ensures k !in Keys(d) ==> r == d + [Entry(k, v)]
    ensures IsDict(d) ==> IsDict(r)
  {
    if d == [] then [Entry(k, v)]
    else if d[0].key == k then
      PutHere(d, v);
      [Entry(k, v)] + d[1..]
    else
      var rest := Put(d[1..], k, v);
      PutFurther(d, k, v, rest);
      [d[0]] + rest
  }

  /** `Put` on the first key: the entry is replaced where it stands. */
  lemma PutHere(d: Results, v: Stats)
    requires d != []
    ensures Keys([Entry(d[0].key, v)] + d[1..]) == Keys(d)
    ensures IsDict(d) ==> IsDict([Entry(d[0].key, v)] + d[1..])
  {
    var r := [Entry(d[0].key, v)] + d[1..];
    assert Keys(r) == Keys(d) by {
      assert forall i :: 0 <= i < |d| ==> Keys(r)[i] == Keys(d)[i];
    }
    assert d == [d[0]] + d[1..];
    IsDictCons(d[0], d[1..]);
    IsDictCons(Entry(d[0].key, v), d[1..]);
  }

  /** `Put` past the first key: what `Put` does to the rest carries over to the whole. */
  lemma {:induction false} PutFurther(d: Results, k: Run, v: Stats, rest: Results)
    requires d != [] && d[0].key != k
    requires k in Keys(d[1..]) ==> Keys(rest) == Keys(d[1..])
    requires k !in Keys(d[1..]) ==> rest == d[1..] + [Entry(k, v)]
    requires IsDict(d[1..]) ==> IsDict(rest)
    ensures k in Keys(d) ==> Keys([d[0]] + rest) == Keys(d)
    ensures k !in Keys(d) ==> [d[0]] + rest == d + [Entry(k, v)]
    ensures IsDict(d) ==> IsDict([d[0]] + rest)
  {
    KeysCons(d);
    ConsKeys(d[0], rest);
    HeadTail(d);
    if k !in Keys(d[1..]) {
      KeysAppend(d[1..], Entry(k, v));
      HeadTailSnoc(d, Entry(k, v));
    }
    if IsDict(d) {
      IsDictCons(d[0], d[1..]);
      IsDictCons(d[0], rest);
    }
  }

  lemma {:induction false} ConsKeys(e: Entry, d: Results)
    ensures Keys([e] + d) == [e.key] + Keys(d)
  {
    KeysCons([e] + d);
    assert ([e] + d)[1..] == d;
  }

  lemma KeysCons(d: Results)
    requires d != []
    ensures Keys(d) == [d[0].key] + Keys(d[1..])
  {
  }

  /** A dict with one more entry in front: its key must be new. */
  lemma IsDictCons(e: Entry, d: Results)
    ensures IsDict([e] + d) <==> IsDict(d) && e.key !in Keys(d)
  {
    var x := [e] + d;
    assert x[0] == e;
    assert forall i :: 0 < i < |x| ==> x[i] == d[i - 1];
    if IsDict(x) {
      forall i, j | 0 <= i < j < |d| ensures d[i].key != d[j].key {
        assert x[i + 1] == d[i] && x[j + 1] == d[j];
      }
      forall i | 0 <= i < |d| ensures Keys(d)[i] != e.key {
        assert x[i + 1] == d[i];
      }
    }
    if IsDict(d) && e.key !in Keys(d) {
      forall i, j | 0 <= i < j < |x| ensures x[i].key != x[j].key {
        if i == 0 {
          assert Keys(d)[j - 1] == x[j].key;
        }
      }
    }
  }

  /** After `d[k] = v`, `k` gives `v` and every other key gives what it gave before. */
  lemma {:induction false} PutGet(d: Results, k: Run, v: Stats)
    ensures Get(Put(d, k, v), k) == Some(v)
    ensures forall j :: j != k ==> Get(Put(d, k, v), j) == Get(d, j)
  {
    if d != [] && d[0].key != k {
      PutGet(d[1..], k, v);
      var r := Put(d, k, v);
      assert r[1..] == Put(d[1..], k, v);
    }
  }

  /** The keys of `fs` that are not in `ks`, each once, in the order `fs` first has them. */
  function Added(ks: seq<Run>, fs: seq<Run>): seq<Run>
    decreases |fs|
  {
    if fs == [] then []
    else if fs[0] in ks then Added(ks, fs[1..])
    else [fs[0]] + Added(ks + [fs[0]], fs[1..])
  }

  /**
    `{**prior, **latest}`: the prior keys keep their places and the keys only
    latest has follow in latest's order. Which value each key then has is
    `MergeGet`.
  */
  function Merge(prior: Results, latest: Results): (r: Results)
    ensures Keys(r) == Keys(prior) + Added(Keys(prior), Keys(latest))
    ensures IsDict(prior) ==> IsDict(r)
    decreases |latest|
  {
    if latest == [] then prior
    else
      var e := latest[0];
      var next := Put(prior, e.key, e.stats);
      assert Keys(latest) == [e.key] + Keys(latest[1..]);
      assert Keys(prior) + Added(Keys(prior), Keys(latest))
          == Keys(next) + Added(Keys(next), Keys(latest[1..])) by {
        if e.key !in Keys(prior) {
          KeysAppend(prior, e);
        }
      }
      Merge(next, latest[1..])
  }

  /** The first fresh entry is assigned first, then the rest. */
  lemma MergeCons(prior: Results, latest: Results)
    requires latest != []
    ensures Merge(prior, latest) == Merge(Put(prior, latest[0].key, latest[0].stats), latest[1..])
  {
  }

  /** A key latest has takes latest's value; any other key keeps its prior value. */
  lemma {:induction false} MergeGet(prior: Results, latest: Results, k: Run)
    requires IsDict(latest)
    ensures Get(Merge(prior, latest), k) == if Get(latest, k).Some? then Get(latest, k) else Get(prior, k)
    decreases |latest|
  {
    if latest != [] {
      var e := latest[0];
      assert IsDict(latest[1..]);
      assert Keys(latest) == [e.key] + Keys(latest[1..]);
      assert e.key !in Keys(latest[1..]);
      PutGet(prior, e.key, e.stats);
      MergeGet(Put(prior, e.key, e.stats), latest[1..], k);
    }
  }

  lemma KeysAppend(d: Results, e: Entry)
    ensures Keys(d + [e]) == Keys(d) + [e.key]
  {
  }

  /** Assigning a key the value it already has changes nothing. */
  lemma PutExisting(d: Results, i: nat)
    requires IsDict(d) && i < |d|
    ensures Put(d, d[i].key, d[i].stats) == d
    decreases i
  {
    assert d == [d[0]] + d[1..];
    if i > 0 {
      assert d[1..][i - 1] == d[i] && d[0].key != d[i].key;
      IsDictCons(d[0], d[1..]);
      PutExisting(d[1..], i - 1);
    }
  }

  /** Merging entries the dict already holds gives the dict back. */
  lemma {:induction false} MergeAbsorbs(d: Results, s: Results)
    requires IsDict(d)
    requires forall k :: 0 <= k < |s| ==> s[k] in d
    ensures Merge(d, s) == d
    decreases |s|
  {
    if s != [] {
      var i :| 0 <= i < |d| && d[i] == s[0];
      PutExisting(d, i);
      MergeAbsorbs(d, s[1..]);
    }
  }

  /** Merging in several batches is merging them one after another. */
  lemma {:induction false} MergeAppend(prior: Results, a: Results, b: Results)
    ensures Merge(prior, a + b) == Merge(Merge(prior, a), b)
    decreases |a|
  {
    if a != [] {
      assert (a + b)[0] == a[0];
      assert (a + b)[1..] == a[1..] + b;
      MergeAppend(Put(prior, a[0].key, a[0].stats), a[1..], b);
    } else {
      assert a + b == b;
    }
  }

  /** Entries under keys the dict lacks are appended in order. */
  lemma {:induction false} MergeNewKeys(d: Results, n: Results)
    requires IsDict(d + n)
    ensures Merge(d, n) == d + n
    decreases |n|
  {
    if n != [] {
      assert n[0].key !in Keys(d) by {
        forall i | 0 <= i < |d| ensures d[i].key != n[0].key {
          assert (d + n)[i] == d[i] && (d + n)[|d|] == n[0];
        }
      }
      assert d + n == (d + [n[0]]) + n[1..];
      MergeNewKeys(d + [n[0]], n[1..]);
    }
  }

  /** A dict merged with an extension of itself is that extension. */
  lemma MergeExtension(prior: Results, n: Results)
    requires IsDict(prior + n)
    ensures Merge(prior, prior + n) == prior + n
  {
    assert IsDict(prior) by {
      forall i, j | 0 <= i < j < |prior| ensures prior[i].key != prior[j].key {
        assert (prior + n)[i] == prior[i] && (prior + n)[j] == prior[j];
      }
    }
    MergeAppend(prior, prior, n);
    MergeAbsorbs(prior, prior);
    MergeNewKeys(prior, n);
  }

  /** A dict merged with a dict it is a prefix of gives the latter. */
  lemma MergeOntoPrefix(prior: Results, r: Results)
    requires IsDict(r) && |r| >= |prior| && r[..|prior|] == prior
    ensures Merge(prior, r) == r
  {
    assert r == prior + r[|prior|..];
    MergeExtension(prior, r[|prior|..]);
  }

  /** Merging the same latest results a second time changes nothing. */
  lemma MergeIdempotent(prior: Results, latest: Results)
    requires IsDict(prior) && IsDict(latest)
    ensures Merge(Merge(prior, latest), latest) == Merge(prior, latest)
  {
    var m := Merge(prior, latest);
    forall k | 0 <= k < |latest| ensures latest[k] in m {
      var e := latest[k];
      assert Get(latest, e.key) == Some(e.stats);
      MergeGet(prior, latest, e.key);
    }
    MergeAbsorbs(m, latest);
  }

  /** Every entry after `d[k] = v` was already in the dict or is the new one. */
  lemma {:induction false} PutEntries(d: Results, k: Run, v: Stats)
    ensures forall i :: 0 <= i < |Put(d, k, v)| ==> Put(d, k, v)[i] in d || Put(d, k, v)[i] == Entry(k, v)
  {
    if d != [] && d[0].key != k {
      PutEntries(d[1..], k, v);
      var r := Put(d, k, v);
      assert r == [d[0]] + Put(d[1..], k, v);
      forall i | 0 <= i < |r| ensures r[i] in d || r[i] == Entry(k, v) {
        if i > 0 {
          assert r[i] == Put(d[1..], k, v)[i - 1];
          assert forall x :: x in d[1..] ==> x in d;
        }
      }
    }
  }

  /** A merge invents no entry: each comes from the prior dict or from the latest results. */
  lemma {:induction false} MergeEntries(prior: Results, latest: Results)
    ensures forall i :: 0 <= i < |Merge(prior, latest)| ==> Merge(prior, latest)[i] in prior || Merge(prior, latest)[i] in latest
    decreases |latest|
  {
    if latest != [] {
      var e := latest[0];
      var next := Put(prior, e.key, e.stats);
      PutEntries(prior, e.key, e.stats);
      MergeEntries(next, latest[1..]);
      var m := Merge(prior, latest);
      assert m == Merge(next, latest[1..]);
      forall i | 0 <= i < |m| ensures m[i] in prior || m[i] in latest {
        assert m[i] in next || m[i] in latest[1..];
        assert forall x :: x in latest[1..] ==> x in latest;
      }
    }
  }
}
