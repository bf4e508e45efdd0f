/**
 * The metrics `wc` can report and the statistics record that holds them.
 *
 * A record is the list of key-value pairs of the insertion-ordered hash the
 * program builds: keys are metrics, values are non-negative counts.
 */
module Metrics {

  /** One column of the report: `-l`, `-w` or `-c`. */
  datatype Metric = Lines | Words | Bytes

  /** Column position of a metric: lines first, then words, then bytes. */
  function Rank(m: Metric): nat {
    match m
    case Lines => 0
    case Words => 1
    case Bytes => 2
  }

  /** The option list used when no flag was given. */
  const DefaultOptions: seq<Metric> := [Bytes, Lines, Words]

  /**
   * The option list after the default is applied: the flags as given, or
   * all three metrics when there were none. Never empty.
   */
  function EffectiveOptions(flags: seq<Metric>): (opts: seq<Metric>)
    ensures |opts| > 0
    ensures forall m :: m in opts <==> (flags == [] || m in flags)
    ensures flags != [] ==> opts == flags
  {
    EveryMetricIsDefault();
    if flags == [] then DefaultOptions else flags
  }

  lemma EveryMetricIsDefault()
    ensures forall m :: m in DefaultOptions
  {
    forall m: Metric
      ensures m in DefaultOptions
    {
      match m
      case Lines => assert DefaultOptions[1] == m;
      case Words => assert DefaultOptions[2] == m;
      case Bytes => assert DefaultOptions[0] == m;
    }
  }

  /** One key-value pair of a statistics record. */
  datatype Count = Count(metric: Metric, value: nat)

  /** A statistics record, in the hash's insertion order. */
  type Record = seq<Count>

  function Keys(r: Record): seq<Metric> {
    seq(|r|, i requires 0 <= i < |r| => r[i].metric)
  }

  lemma KeysAppend(a: Record, b: Record)
    ensures Keys(a + b) == Keys(a) + Keys(b)
  {
  }

  function Values(r: Record): seq<nat> {
    seq(|r|, i requires 0 <= i < |r| => r[i].value)
  }

  /** Keys strictly in column order; in particular no key repeats. */
  predicate InColumnOrder(ks: seq<Metric>) {
    forall i, j :: 0 <= i < j < |ks| ==> Rank(ks[i]) < Rank(ks[j])
  }

  /**
   * The keys a record holds for a given option list: exactly the metrics
   * named in it, in column order whatever order the flags came in.
   */
  function Selected(opts: seq<Metric>): (ks: seq<Metric>)
    ensures InColumnOrder(ks)
    ensures forall m :: m in ks <==> m in opts
  {
    SelectedMembership(opts);
    Pick(Lines, opts) + Pick(Words, opts) + Pick(Bytes, opts)
  }

  function Pick(m: Metric, opts: seq<Metric>): seq<Metric> {
    if m in opts then [m] else []
  }

  lemma SelectedMembership(opts: seq<Metric>)
    ensures forall m :: m in Pick(Lines, opts) + Pick(Words, opts) + Pick(Bytes, opts) <==> m in opts
  {
    forall m: Metric
      ensures m in Pick(Lines, opts) + Pick(Words, opts) + Pick(Bytes, opts) <==> m in opts
    {
      match m
      case Lines =>
      case Words =>
      case Bytes =>
    }
  }

  /**
   * The keys of a record are determined by the set of metrics chosen alone:
   * any column-ordered list of exactly those metrics is `Selected(opts)`.
   */
  lemma SelectedIsUnique(opts: seq<Metric>, ks: seq<Metric>)
    requires InColumnOrder(ks)
    requires forall m :: m in ks <==> m in opts
    ensures ks == Selected(opts)
  {
    OrderedUnique(ks, Selected(opts));
  }

  /** Two column-ordered key lists with the same members are equal. */
  lemma {:induction false} OrderedUnique(a: seq<Metric>, b: seq<Metric>)
    requires InColumnOrder(a) && InColumnOrder(b)
    requires forall m :: m in a <==> m in b
    ensures a == b
  {
    if a == [] {
      HeadIsMember(b);
    } else {
      assert a[0] in b;
      var j :| 0 <= j < |b| && b[j] == a[0];
      assert b[0] in a;
      var k :| 0 <= k < |a| && a[k] == b[0];
      FirstIsLeast(b, j);
      FirstIsLeast(a, k);
      assert a[0] == b[0];
      forall m
        ensures m in a[1..] <==> m in b[1..]
      {
        if m in a[1..] {
          var x :| 1 <= x < |a| && a[x] == m;
          assert Rank(a[0]) < Rank(a[x]);
          assert m in b;
        }
        if m in b[1..] {
          var y :| 1 <= y < |b| && b[y] == m;
          assert Rank(b[0]) < Rank(b[y]);
          assert m in a;
        }
      }
      OrderedUnique(a[1..], b[1..]);
    }
  }

  lemma FirstIsLeast(a: seq<Metric>, k: nat)
    requires InColumnOrder(a) && k < |a|
    ensures Rank(a[0]) <= Rank(a[k])
  {
  }

  lemma HeadIsMember<T>(b: seq<T>)
    ensures b == [] || b[0] in b
  {
  }

  /**
   * The sum of the values a record holds under key `m`; for a record
   * without repeated keys this is the value stored under `m`, or 0 when
   * `m` is not a key.
   */
  function ValueOf(r: Record, m: Metric): nat {
    if r == [] then 0
    else (if r[0].metric == m then r[0].value else 0) + ValueOf(r[1..], m)
  }

  lemma {:induction false} ValueOfAbsent(r: Record, m: Metric)
    requires m !in Keys(r)
    ensures ValueOf(r, m) == 0
  {
    if r != [] {
      assert Keys(r[1..]) == Keys(r)[1..];
      assert Keys(r)[0] == r[0].metric;
      ValueOfAbsent(r[1..], m);
    }
  }

  lemma {:induction false} ValueOfKey(r: Record, i: nat)
    requires InColumnOrder(Keys(r))
    requires i < |r|
    ensures ValueOf(r, r[i].metric) == r[i].value
  {
    assert Keys(r[1..]) == Keys(r)[1..];
    if i == 0 {
      forall j | 0 <= j < |r| - 1
        ensures Keys(r[1..])[j] != r[0].metric
      {
        assert Rank(Keys(r)[0]) < Rank(Keys(r)[j + 1]);
      }
      ValueOfAbsent(r[1..], r[0].metric);
    } else {
      assert Keys(r)[0] != Keys(r)[i];
      ValueOfKey(r[1..], i - 1);
    }
  }

  /**
   * Two records with the same column-ordered keys and the same value under
   * every key are the same record.
   */
  lemma RecordsEqual(r1: Record, r2: Record)
    requires Keys(r1) == Keys(r2)
    requires InColumnOrder(Keys(r1))
    requires forall m :: ValueOf(r1, m) == ValueOf(r2, m)
    ensures r1 == r2
  {
    assert |r1| == |Keys(r1)| == |r2|;
    forall i | 0 <= i < |r1|
      ensures r1[i] == r2[i]
    {
      assert Keys(r1)[i] == Keys(r2)[i];
      ValueOfKey(r1, i);
      ValueOfKey(r2, i);
    }
  }

  /**
   * The zero record over the selected metrics, as built for a directory
   * (main_wc.rb:37) and as the initial total (main_wc.rb:44).
   */
  function Zeros(opts: seq<Metric>): (r: Record)
    ensures Keys(r) == Selected(opts)
    ensures forall m :: ValueOf(r, m) == 0
  {
    var ks := Selected(opts);
    var r := seq(|ks|, i requires 0 <= i < |ks| => Count(ks[i], 0));
    AllZero(r);
    r
  }

  lemma {:induction false} AllZero(r: Record)
    requires forall i :: 0 <= i < |r| ==> r[i].value == 0
    ensures forall m :: ValueOf(r, m) == 0
  {
    if r != [] {
      AllZero(r[1..]);
    }
  }
}
