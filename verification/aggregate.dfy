/**
 * The total (main_wc.rb:44-45): a zero record over the selected metrics,
 * into which every stored record is added key by key.
 */
module Aggregate {

  import opened Metrics
  import opened Stats
  import opened OrderedMaps
  import opened Resolve

  /** `total[k] += v`; the key must already be present (Ruby fails on `nil + v`). */
  function Bump(acc: Record, k: Metric, v: nat): (r: Record)
    requires k in Keys(acc)
    ensures Keys(r) == Keys(acc)
    ensures forall m :: ValueOf(r, m) == ValueOf(acc, m) + (if m == k then v else 0)
  {
    assert Keys(acc) == [acc[0].metric] + Keys(acc[1..]);
    if acc[0].metric == k then
      var r := [Count(k, acc[0].value + v)] + acc[1..];
      assert r[1..] == acc[1..];
      r
    else
      var rest := Bump(acc[1..], k, v);
      var r := [acc[0]] + rest;
      assert r[1..] == rest;
      assert Keys(r) == [acc[0].metric] + Keys(rest);
      r
  }

  /** `stats.each { |k, v| total[k] += v }`. */
  function AddRecord(acc: Record, stats: Record): (r: Record)
    requires forall m :: m in Keys(stats) ==> m in Keys(acc)
    ensures Keys(r) == Keys(acc)
    ensures forall m :: ValueOf(r, m) == ValueOf(acc, m) + ValueOf(stats, m)
    decreases |stats|
  {
    if stats == [] then acc
    else
      assert Keys(stats) == [stats[0].metric] + Keys(stats[1..]);
      AddRecord(Bump(acc, stats[0].metric, stats[0].value), stats[1..])
  }

  /** Adds the records of the stored entries, in order. */
  function AddAll(acc: Record, entries: OrderedMap<Record>): (r: Record)
    requires forall i, m :: 0 <= i < |entries| && m in Keys(entries[i].1) ==> m in Keys(acc)
    ensures Keys(r) == Keys(acc)
    ensures forall m :: ValueOf(r, m) == ValueOf(acc, m) + ColumnSum(entries, m)
    decreases |entries|
  {
    if entries == [] then acc
    else AddAll(AddRecord(acc, entries[0].1), entries[1..])
  }

  /** The sum of one metric's values over the stored entries. */
  function ColumnSum(entries: OrderedMap<Record>, m: Metric): nat {
    if entries == [] then 0 else ValueOf(entries[0].1, m) + ColumnSum(entries[1..], m)
  }

  /**
   * The total over the stored records: the selected metrics in column
   * order, each holding the sum of that metric over the entries.
   */
  function Total(fileStats: OrderedMap<Record>, opts: seq<Metric>): (total: Record)
    requires forall i :: 0 <= i < |fileStats| ==> Keys(fileStats[i].1) == Selected(opts)
    ensures Keys(total) == Selected(opts)
    ensures forall m :: ValueOf(total, m) == ColumnSum(fileStats, m)
  {
    AddAll(Zeros(opts), fileStats)
  }

  /**
   * What one path contributes to a metric's total: nothing when it is
   * missing, 0 when it is a directory, the file's count when the metric
   * is selected.
   */
  function Contribution(fs: FileSystem, p: string, opts: seq<Metric>, m: Metric): nat {
    if p !in fs then 0
    else match fs[p]
      case Dir => 0
      case File(text) => if m in opts then Measure(m, text) else 0
  }

  /** The sum of the contributions of a list of paths. */
  function PathSum(fs: FileSystem, ps: seq<string>, opts: seq<Metric>, m: Metric): nat {
    if ps == [] then 0
    else PathSum(fs, ps[..|ps| - 1], opts, m) + Contribution(fs, ps[|ps| - 1], opts, m)
  }

  lemma {:induction false} ColumnSumAppend(a: OrderedMap<Record>, b: OrderedMap<Record>, m: Metric)
    ensures ColumnSum(a + b, m) == ColumnSum(a, m) + ColumnSum(b, m)
  {
    if a == [] {
      assert a + b == b;
    } else {
      assert (a + b)[1..] == a[1..] + b;
      ColumnSumAppend(a[1..], b, m);
    }
  }

  /** Summing the reference `files_stats` is summing the paths' contributions. */
  lemma {:induction false} ColumnSumOfTable(fs: FileSystem, ps: seq<string>, opts: seq<Metric>, m: Metric)
    ensures ColumnSum(StatsTable(fs, ps, opts), m) == PathSum(fs, ps, opts, m)
  {
    if ps != [] {
      var p := ps[|ps| - 1];
      var t := StatsTable(fs, ps[..|ps| - 1], opts);
      ColumnSumOfTable(fs, ps[..|ps| - 1], opts, m);
      if p in fs {
        var e := [(p, StatsFor(fs, p, opts))];
        ColumnSumAppend(t, e, m);
        assert ColumnSum(e, m) == ValueOf(StatsFor(fs, p, opts), m);
      }
    }
  }

  /** The total of an invocation's stored records. */
  function TotalOf(fs: FileSystem, paths: seq<string>, opts: seq<Metric>): Record {
    var res := ResolveAll(fs, paths, opts);
    Total(res.fileStats, opts)
  }

  /**
   * The total holds the selected metrics in column order; under each, the
   * sum of the contributions of the distinct paths: missing paths add
   * nothing, directories 0, and a repeated path is counted once.
   */
  lemma TotalIsPathSum(fs: FileSystem, paths: seq<string>, opts: seq<Metric>)
    ensures Keys(TotalOf(fs, paths, opts)) == Selected(opts)
    ensures forall m :: ValueOf(TotalOf(fs, paths, opts), m) == PathSum(fs, Distinct(paths), opts, m)
  {
    forall m
      ensures ValueOf(TotalOf(fs, paths, opts), m) == PathSum(fs, Distinct(paths), opts, m)
    {
      ColumnSumOfTable(fs, Distinct(paths), opts, m);
    }
  }

  /** Removing one element from a list of paths removes its contribution. */
  lemma {:induction false} PathSumRemove(fs: FileSystem, ps: seq<string>, j: nat, opts: seq<Metric>, m: Metric)
    requires j < |ps|
    ensures PathSum(fs, ps, opts, m) == PathSum(fs, ps[..j] + ps[j + 1..], opts, m) + Contribution(fs, ps[j], opts, m)
  {
    var n := |ps| - 1;
    if j < n {
      PathSumRemove(fs, ps[..n], j, opts, m);
      assert ps[..n][..j] + ps[..n][j + 1..] == (ps[..j] + ps[j + 1..])[..n - 1];
      assert (ps[..j] + ps[j + 1..])[n - 1] == ps[n];
    } else {
      assert ps[..j] + ps[j + 1..] == ps[..n];
    }
  }

  /** Two repetition-free lists of the same paths have the same sum. */
  lemma {:induction false} PathSumPermutation(fs: FileSystem, a: seq<string>, b: seq<string>, opts: seq<Metric>, m: Metric)
    requires forall i, j :: 0 <= i < j < |a| ==> a[i] != a[j]
    requires forall i, j :: 0 <= i < j < |b| ==> b[i] != b[j]
    requires forall p :: p in a <==> p in b
    ensures PathSum(fs, a, opts, m) == PathSum(fs, b, opts, m)
    decreases |a|
  {
    if a == [] {
      HeadIsMember(b);
    } else {
      var n := |a| - 1;
      var x := a[n];
      assert x in b;
      var j :| 0 <= j < |b| && b[j] == x;
      PathSumRemove(fs, b, j, opts, m);
      DropAt(a, n);
      DropAt(b, j);
      assert a[..n] + a[n + 1..] == a[..n];
      PathSumPermutation(fs, a[..n], b[..j] + b[j + 1..], opts, m);
    }
  }

  /** Removing one entry of a repetition-free list removes exactly that path. */
  lemma DropAt(b: seq<string>, j: nat)
    requires forall i, k :: 0 <= i < k < |b| ==> b[i] != b[k]
    requires j < |b|
    ensures var b' := b[..j] + b[j + 1..];
      && (forall p :: p in b' <==> p in b && p != b[j])
      && (forall i, k :: 0 <= i < k < |b'| ==> b'[i] != b'[k])
  {
    var b' := b[..j] + b[j + 1..];
    assert forall i :: 0 <= i < |b'| ==> b'[i] == b[if i < j then i else i + 1];
    forall p | p in b && p != b[j]
      ensures p in b'
    {
      var i :| 0 <= i < |b| && b[i] == p;
      assert b'[if i < j then i else i - 1] == p;
    }
  }

  /**
   * The total does not depend on the order or repetition of the path
   * arguments, only on which paths were given.
   */
  lemma TotalIgnoresOrder(fs: FileSystem, a: seq<string>, b: seq<string>, opts: seq<Metric>)
    requires forall p :: p in a <==> p in b
    ensures TotalOf(fs, a, opts) == TotalOf(fs, b, opts)
  {
    TotalIsPathSum(fs, a, opts);
    TotalIsPathSum(fs, b, opts);
    forall m
      ensures ValueOf(TotalOf(fs, a, opts), m) == ValueOf(TotalOf(fs, b, opts), m)
    {
      PathSumPermutation(fs, Distinct(a), Distinct(b), opts, m);
    }
    RecordsEqual(TotalOf(fs, a, opts), TotalOf(fs, b, opts));
  }

  /** A path given twice is counted once. */
  lemma DuplicateCountedOnce(fs: FileSystem, paths: seq<string>, p: string, opts: seq<Metric>)
    requires p in paths
    ensures TotalOf(fs, paths + [p], opts) == TotalOf(fs, paths, opts)
  {
    TotalIgnoresOrder(fs, paths + [p], paths, opts);
  }

  /** The sum over a list of paths is at least the contribution of each of them. */
  lemma {:induction false} ContributionAtMostSum(fs: FileSystem, ps: seq<string>, p: string, opts: seq<Metric>, m: Metric)
    requires p in ps
    ensures Contribution(fs, p, opts, m) <= PathSum(fs, ps, opts, m)
  {
    var n := |ps| - 1;
    if ps[n] != p {
      assert p in ps[..n];
      ContributionAtMostSum(fs, ps[..n], p, opts, m);
    }
  }

  /**
   * Every value of the record stored for an existing path is at most the
   * total's value in the same column.
   */
  lemma PathValueAtMostTotal(fs: FileSystem, paths: seq<string>, p: string, opts: seq<Metric>, i: nat)
    requires p in paths && p in fs
    requires i < |StatsFor(fs, p, opts)|
    ensures i < |TotalOf(fs, paths, opts)|
    ensures TotalOf(fs, paths, opts)[i].metric == StatsFor(fs, p, opts)[i].metric
    ensures StatsFor(fs, p, opts)[i].value <= TotalOf(fs, paths, opts)[i].value
  {
    var r := StatsFor(fs, p, opts);
    var total := TotalOf(fs, paths, opts);
    var m := r[i].metric;
    TotalIsPathSum(fs, paths, opts);
    assert Keys(total) == Keys(r);
    assert |total| == |Keys(total)| == |Keys(r)| == |r|;
    assert Keys(total)[i] == Keys(r)[i];
    ValueOfKey(r, i);
    ValueOfKey(total, i);
    assert ValueOf(r, m) == Contribution(fs, p, opts, m);
    ContributionAtMostSum(fs, Distinct(paths), p, opts, m);
  }
}
