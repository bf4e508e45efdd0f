/**
 * `calculate_stats` (main_wc.rb:91-98): the statistics record of one text
 * for a list of options.
 */
module Stats {

  import opened Metrics
  import LineBreaks
  import Words
  import Utf8

  /** The count a metric stands for. */
  function Measure(m: Metric, text: string): nat {
    match m
    case Lines => LineBreaks.LineCount(text)
    case Words => Words.WordCount(text)
    case Bytes => Utf8.ByteSize(text)
  }

  /**
   * The record holds exactly the selected metrics, in column order, each
   * with the count it stands for.
   */
  function CalculateStats(text: string, opts: seq<Metric>): (r: Record)
    ensures Keys(r) == Selected(opts)
    ensures forall i :: 0 <= i < |r| ==> r[i].value == Measure(r[i].metric, text)
    ensures forall m :: ValueOf(r, m) == if m in opts then Measure(m, text) else 0
  {
    var a := Entry(Lines, text, opts);
    var b := Entry(Words, text, opts);
    var c := Entry(Bytes, text, opts);
    KeysAppend(a, b);
    KeysAppend(a + b, c);
    Measured3(a, b, c, text);
    ValuesMeasured(a + b + c, text, opts);
    a + b + c
  }

  /** The column of metric m, when m is selected. */
  function Entry(m: Metric, text: string, opts: seq<Metric>): (r: Record)
    ensures Keys(r) == Pick(m, opts)
    ensures forall i :: 0 <= i < |r| ==> r[i].value == Measure(r[i].metric, text)
  {
    if m in opts then [Count(m, Measure(m, text))] else []
  }

  predicate AllMeasured(r: Record, text: string) {
    forall i :: 0 <= i < |r| ==> r[i].value == Measure(r[i].metric, text)
  }

  lemma Measured3(a: Record, b: Record, c: Record, text: string)
    requires AllMeasured(a, text) && AllMeasured(b, text) && AllMeasured(c, text)
    ensures AllMeasured(a + b + c, text)
  {
  }

  lemma ValuesMeasured(r: Record, text: string, opts: seq<Metric>)
    requires Keys(r) == Selected(opts)
    requires forall i :: 0 <= i < |r| ==> r[i].value == Measure(r[i].metric, text)
    ensures forall m :: ValueOf(r, m) == if m in opts then Measure(m, text) else 0
  {
    forall m
      ensures ValueOf(r, m) == if m in opts then Measure(m, text) else 0
    {
      if m in opts {
        assert m in Keys(r);
        var i :| 0 <= i < |r| && Keys(r)[i] == m;
        ValueOfKey(r, i);
      } else {
        ValueOfAbsent(r, m);
      }
    }
  }

  /**
   * The order and repetition of the flags do not matter: only which
   * metrics were chosen does.
   */
  lemma FlagOrderIrrelevant(text: string, a: seq<Metric>, b: seq<Metric>)
    requires forall m :: m in a <==> m in b
    ensures CalculateStats(text, a) == CalculateStats(text, b)
  {
    SelectedIsUnique(a, Selected(b));
    RecordsEqual(CalculateStats(text, a), CalculateStats(text, b));
  }
}
