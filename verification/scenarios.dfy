/** Worked invocations, checked against the model. */
module Scenarios {

  import opened Optional
  import opened Metrics
  import opened Stats
  import LineBreaks
  import Words
  import Utf8
  import opened Resolve
  import opened Aggregate
  import opened Report

  /** With the default options a record has all three columns, lines first. */
  lemma AllColumns(t: string)
    ensures CalculateStats(t, DefaultOptions)
      == [Count(Lines, LineBreaks.LineCount(t)), Count(Words, Words.WordCount(t)), Count(Bytes, Utf8.ByteSize(t))]
  {
    assert Lines in DefaultOptions && Words in DefaultOptions && Bytes in DefaultOptions;
  }

  /** Text without breaks followed by one LF is one line. */
  lemma OneLine(s: string)
    requires LineBreaks.NoBreaks(s)
    ensures LineBreaks.LineCount(s + "\n") == 1
  {
    LineBreaks.LineCountAppend(s, "\n");
    if |s| > 0 {
      assert LineBreaks.IsBreak('\r');
      assert s[|s| - 1] != '\r';
    }
  }

  /** A word and one whitespace character: one run, then the scan goes on after it. */
  lemma WordAndSpace(w: string, c: char, rest: string)
    requires |w| >= 1 && forall i :: 0 <= i < |w| ==> !Words.IsSpace(w[i])
    requires Words.IsSpace(c)
    ensures Words.RunsFrom(w + [c] + rest, true) == 1 + Words.RunsFrom(rest, true)
  {
    var t := w + [c] + rest;
    assert t[|w|..] == [c] + rest;
    assert ([c] + rest)[1..] == rest;
    Words.SkipWord(t, |w|, true);
    Words.SkipSpaces([c] + rest, 1, false);
  }

  lemma AbcLines(t: string)
    requires t == "a b\nc\n"
    ensures LineBreaks.LineCount(t) == 2
  {
    assert t == "a b\n" + "c\n";
    assert "a b\n" == "a b" + "\n" && "c\n" == "c" + "\n";
    OneLine("a b");
    OneLine("c");
    LineBreaks.LineCountAppend("a b\n", "c\n");
  }

  lemma AbcRuns(t: string)
    requires t == "a b\nc\n"
    ensures Words.Runs(t) == 3
  {
    assert t == "a" + [' '] + "b\nc\n";
    assert "b\nc\n" == "b" + ['\n'] + "c\n";
    assert "c\n" == "c" + ['\n'] + "";
    WordAndSpace("a", ' ', "b\nc\n");
    WordAndSpace("b", '\n', "c\n");
    WordAndSpace("c", '\n', "");
  }

  /** `"a b\nc\n"` with the default options: 2 lines, 3 words, 6 bytes. */
  lemma DefaultCounts(t: string)
    requires t == "a b\nc\n"
    ensures CalculateStats(t, DefaultOptions) == [Count(Lines, 2), Count(Words, 3), Count(Bytes, 6)]
  {
    AllColumns(t);
    AbcLines(t);
    AbcRuns(t);
    WordsAreRuns(t, 3);
    AbcBytes(t);
  }

  lemma AbcBytes(t: string)
    requires t == "a b\nc\n"
    ensures Utf8.ByteSize(t) == 6
  {
    assert forall i :: 0 <= i < |t| ==> Utf8.IsAscii(t[i]);
  }

  /** Text that starts with a word has as many words as runs. */
  lemma WordsAreRuns(t: string, n: nat)
    requires t != [] && !Words.IsSpace(t[0]) && Words.Runs(t) == n
    ensures Words.WordCount(t) == n
  {
    Words.WordCountMatchesRuns(t);
  }

  lemma OneTwoThreeRuns(t: string)
    requires t == "one two three\n"
    ensures Words.Runs(t) == 3
  {
    var u := "two three\n";
    assert t == "one" + [' '] + u by {
      assert |t| == |"one" + [' '] + u|;
    }
    WordAndSpace("one", ' ', u);
    TwoThreeRuns(u);
  }

  lemma TwoThreeRuns(u: string)
    requires u == "two three\n"
    ensures Words.Runs(u) == 2
  {
    var v := "three\n";
    assert u == "two" + [' '] + v;
    assert v == "three" + ['\n'] + "";
    WordAndSpace("two", ' ', v);
    WordAndSpace("three", '\n', "");
  }

  lemma OneTwoThreeWords(t: string)
    requires t == "one two three\n"
    ensures Words.WordCount(t) == 3
  {
    OneTwoThreeRuns(t);
    WordsAreRuns(t, 3);
  }

  /** With `-l -w`, `"one two three\n"` gives two columns, lines then words: 1 and 3. */
  lemma LinesAndWordsOnly(t: string)
    requires t == "one two three\n"
    ensures CalculateStats(t, [Lines, Words]) == [Count(Lines, 1), Count(Words, 3)]
  {
    LinesAndWords(t);
    OneTwoThreeCounts(t);
  }

  /** `"one two three\n"`: 1 line, 3 words. */
  lemma OneTwoThreeCounts(t: string)
    requires t == "one two three\n"
    ensures LineBreaks.LineCount(t) == 1
    ensures Words.WordCount(t) == 3
  {
    assert t == "one two three" + "\n";
    OneLine("one two three");
    OneTwoThreeWords(t);
  }

  lemma LinesAndWords(t: string)
    ensures CalculateStats(t, [Lines, Words]) == [Count(Lines, LineBreaks.LineCount(t)), Count(Words, Words.WordCount(t))]
  {
    assert Lines in [Lines, Words] && Words in [Lines, Words] && Bytes !in [Lines, Words];
  }

  /** A single argument: its block alone, with no total row. */
  lemma OneArgument(fs: FileSystem, p: string)
    ensures |TotalOf(fs, [p], DefaultOptions)| > 0
    ensures Wc([], Terminal, [p], fs) == Block(fs, p, DefaultOptions, Width(TotalOf(fs, [p], DefaultOptions)))
  {
    ReportIsBlocks(fs, DefaultOptions, [p]);
    OneDistinct(p);
    BlocksOne(fs, p, DefaultOptions, Width(TotalOf(fs, [p], DefaultOptions)));
  }

  lemma BlocksOne(fs: FileSystem, p: string, opts: seq<Metric>, w: nat)
    ensures Blocks(fs, [p], opts, w) == Block(fs, p, opts, w)
  {
    assert [p][1..] == [];
    assert Blocks(fs, [p], opts, w) == Block(fs, p, opts, w) + Blocks(fs, [], opts, w);
  }

  lemma MissingFileLines(fs: FileSystem, p: string)
    requires p !in fs
    ensures Wc([], Terminal, [p], fs) == [NoSuchFile(p)]
  {
    OneArgument(fs, p);
  }

  lemma OutputOne(line: Line)
    ensures Output([line]) == Render(line)
  {
    assert [line][1..] == [];
  }

  /** A single missing path prints only its diagnostic, and no total row. */
  lemma MissingFileAlone(fs: FileSystem, p: string)
    requires p !in fs
    ensures Wc([], Terminal, [p], fs) == [NoSuchFile(p)]
    ensures Output(Wc([], Terminal, [p], fs)) == "wc: " + p + ": No such file or directory\n"
  {
    MissingFileLines(fs, p);
    OutputOne(NoSuchFile(p));
    DiagnosticText(p);
  }

  lemma OneDistinct(a: string)
    ensures Distinct([a]) == [a]
  {
    assert [a][..0] == [];
  }

  lemma TwoDistinct(a: string, b: string)
    requires a != b
    ensures Distinct([a, b]) == [a, b]
  {
    assert [a, b][..1] == [a];
    OneDistinct(a);
  }

  lemma PathSumTwo(fs: FileSystem, a: string, b: string, opts: seq<Metric>, m: Metric)
    ensures PathSum(fs, [a, b], opts, m) == Contribution(fs, a, opts, m) + Contribution(fs, b, opts, m)
  {
    assert [a, b][..1] == [a];
    assert [a][..0] == [];
    assert PathSum(fs, [a], opts, m) == PathSum(fs, [], opts, m) + Contribution(fs, a, opts, m);
    assert PathSum(fs, [a, b], opts, m) == PathSum(fs, [a], opts, m) + Contribution(fs, b, opts, m);
  }

  lemma BlocksTwo(fs: FileSystem, a: string, b: string, opts: seq<Metric>, w: nat)
    ensures Blocks(fs, [a, b], opts, w) == Block(fs, a, opts, w) + Block(fs, b, opts, w)
  {
    assert [a, b][1..] == [b];
    assert [b][1..] == [];
    assert Blocks(fs, [b], opts, w) == Block(fs, b, opts, w) + Blocks(fs, [], opts, w);
    assert Blocks(fs, [a, b], opts, w) == Block(fs, a, opts, w) + Blocks(fs, [b], opts, w);
  }

  /** A record is the total once its keys and per-metric sums are the total's. */
  lemma TotalFromSums(fs: FileSystem, paths: seq<string>, opts: seq<Metric>, r: Record)
    requires Keys(r) == Selected(opts)
    requires forall m :: PathSum(fs, Distinct(paths), opts, m) == ValueOf(r, m)
    ensures TotalOf(fs, paths, opts) == r
  {
    TotalIsPathSum(fs, paths, opts);
    RecordsEqual(TotalOf(fs, paths, opts), r);
  }

  /** Counts below ten give the minimum width. */
  lemma SmallWidth(r: Record)
    requires |r| > 0
    requires forall i :: 0 <= i < |r| ==> r[i].value < 10
    ensures Width(r) == 7
  {
  }

  lemma XyRuns(t: string)
    requires t == "x y\n"
    ensures Words.Runs(t) == 2
  {
    assert t == "x" + [' '] + "y\n";
    assert "y\n" == "y" + ['\n'] + "";
    WordAndSpace("x", ' ', "y\n");
    WordAndSpace("y", '\n', "");
  }

  lemma XyWords(t: string)
    requires t == "x y\n"
    ensures Words.WordCount(t) == 2
  {
    XyRuns(t);
    WordsAreRuns(t, 2);
  }

  const XyStats: Record := [Count(Lines, 1), Count(Words, 2), Count(Bytes, 4)]

  lemma XyWidth()
    ensures |XyStats| > 0 && Width(XyStats) == 7
  {
    SmallWidth(XyStats);
  }

  const ZeroStats: Record := [Count(Lines, 0), Count(Words, 0), Count(Bytes, 0)]

  /** `"x y\n"`: 1 line, 2 words, 4 bytes. */
  lemma XyCounts(t: string)
    requires t == "x y\n"
    ensures LineBreaks.LineCount(t) == 1
    ensures Words.WordCount(t) == 2
    ensures Utf8.ByteSize(t) == 4
  {
    assert t == "x y" + "\n";
    OneLine("x y");
    XyWords(t);
    XyBytes(t);
  }

  lemma XyBytes(t: string)
    requires t == "x y\n"
    ensures Utf8.ByteSize(t) == 4
  {
    assert t[0] == 'x' && t[1] == ' ' && t[2] == 'y' && t[3] == '\n';
    assert forall i :: 0 <= i < |t| ==> Utf8.IsAscii(t[i]);
  }

  lemma EmptyCounts()
    ensures LineBreaks.LineCount("") == 0 && Words.WordCount("") == 0 && Utf8.ByteSize("") == 0
  {
  }

  lemma XyRecord(t: string)
    requires t == "x y\n"
    ensures CalculateStats(t, DefaultOptions) == XyStats
  {
    XyCounts(t);
    AllColumns(t);
  }

  lemma EmptyRecord()
    ensures CalculateStats("", DefaultOptions) == ZeroStats
    ensures Zeros(DefaultOptions) == ZeroStats
  {
    EmptyCounts();
    AllColumns("");
    EveryMetricIsDefault();
  }

  /** The row of one argument path, whatever the width. */
  lemma FileBlock(fs: FileSystem, p: string, t: string, w: nat)
    requires p in fs && fs[p] == File(t)
    ensures Block(fs, p, DefaultOptions, w) == [Row(CalculateStats(t, DefaultOptions), w, Some(p))]
  {
  }

  lemma DirBlock(fs: FileSystem, p: string, w: nat)
    requires p in fs && fs[p] == Dir
    ensures Block(fs, p, DefaultOptions, w) == [IsADirectory(p), Row(ZeroStats, w, Some(p))]
  {
    EmptyRecord();
  }

  /** A path that adds nothing to any column: a directory or an empty file. */
  predicate AddsNothing(fs: FileSystem, p: string) {
    p in fs && (fs[p] == Dir || fs[p] == File(""))
  }

  lemma NothingContributed(fs: FileSystem, p: string, m: Metric)
    requires AddsNothing(fs, p)
    ensures Contribution(fs, p, DefaultOptions, m) == 0
  {
    EmptyCounts();
  }

  lemma FileContributes(fs: FileSystem, p: string, t: string, m: Metric)
    requires p in fs && fs[p] == File(t)
    ensures Contribution(fs, p, DefaultOptions, m) == ValueOf(CalculateStats(t, DefaultOptions), m)
  {
    EveryMetricIsDefault();
  }

  /** A file followed by a path that adds nothing: the total is the file's record. */
  lemma TotalOfFileAndNothing(fs: FileSystem, a: string, b: string, t: string)
    requires a != b && a in fs && fs[a] == File(t) && AddsNothing(fs, b)
    ensures TotalOf(fs, [a, b], DefaultOptions) == CalculateStats(t, DefaultOptions)
  {
    TwoDistinct(a, b);
    forall m
      ensures PathSum(fs, Distinct([a, b]), DefaultOptions, m) == ValueOf(CalculateStats(t, DefaultOptions), m)
    {
      PathSumTwo(fs, a, b, DefaultOptions, m);
      FileContributes(fs, a, t, m);
      NothingContributed(fs, b, m);
    }
    TotalFromSums(fs, [a, b], DefaultOptions, CalculateStats(t, DefaultOptions));
  }

  /** The same, with the path that adds nothing first. */
  lemma TotalOfNothingAndFile(fs: FileSystem, a: string, b: string, t: string)
    requires a != b && AddsNothing(fs, a) && b in fs && fs[b] == File(t)
    ensures TotalOf(fs, [a, b], DefaultOptions) == CalculateStats(t, DefaultOptions)
  {
    TwoDistinct(a, b);
    forall m
      ensures PathSum(fs, Distinct([a, b]), DefaultOptions, m) == ValueOf(CalculateStats(t, DefaultOptions), m)
    {
      PathSumTwo(fs, a, b, DefaultOptions, m);
      NothingContributed(fs, a, m);
      FileContributes(fs, b, t, m);
    }
    TotalFromSums(fs, [a, b], DefaultOptions, CalculateStats(t, DefaultOptions));
  }

  /** Two distinct arguments: the blocks of both, then the total row. */
  lemma TwoArguments(fs: FileSystem, a: string, b: string)
    requires a != b
    ensures |TotalOf(fs, [a, b], DefaultOptions)| > 0
    ensures var total := TotalOf(fs, [a, b], DefaultOptions);
      var w := Width(total);
      Wc([], Terminal, [a, b], fs)
        == Block(fs, a, DefaultOptions, w) + Block(fs, b, DefaultOptions, w) + [Row(total, w, Some("total"))]
  {
    ReportIsBlocks(fs, DefaultOptions, [a, b]);
    TwoDistinct(a, b);
    var w := Width(TotalOf(fs, [a, b], DefaultOptions));
    BlocksTwo(fs, a, b, DefaultOptions, w);
  }

  /** Two distinct arguments whose total is known to be `total`. */
  lemma TwoArgumentsTotal(fs: FileSystem, a: string, b: string, total: Record)
    requires a != b && TotalOf(fs, [a, b], DefaultOptions) == total
    ensures |total| > 0
    ensures Wc([], Terminal, [a, b], fs)
      == Block(fs, a, DefaultOptions, Width(total)) + Block(fs, b, DefaultOptions, Width(total))
         + [Row(total, Width(total), Some("total"))]
  {
    TwoArguments(fs, a, b);
  }

  lemma EmptyFileBlock(fs: FileSystem, p: string, w: nat)
    requires p in fs && fs[p] == File("")
    ensures Block(fs, p, DefaultOptions, w) == [Row(ZeroStats, w, Some(p))]
  {
    EmptyRecord();
  }

  /** A file and then an empty file: two rows, and a total equal to the first file's record. */
  lemma FileThenEmptyFile(fs: FileSystem, a: string, b: string, t: string)
    requires a != b && a in fs && fs[a] == File(t) && b in fs && fs[b] == File("")
    ensures |CalculateStats(t, DefaultOptions)| > 0
    ensures var r := CalculateStats(t, DefaultOptions);
      var w := Width(r);
      Wc([], Terminal, [a, b], fs) == [Row(r, w, Some(a))] + [Row(ZeroStats, w, Some(b))] + [Row(r, w, Some("total"))]
  {
    FileThenEmptyFileTotal(fs, a, b, t);
    var w := Width(CalculateStats(t, DefaultOptions));
    FileBlock(fs, a, t, w);
    EmptyFileBlock(fs, b, w);
  }

  lemma FileThenEmptyFileTotal(fs: FileSystem, a: string, b: string, t: string)
    requires a != b && a in fs && fs[a] == File(t) && b in fs && fs[b] == File("")
    ensures |CalculateStats(t, DefaultOptions)| > 0
    ensures var r := CalculateStats(t, DefaultOptions);
      var w := Width(r);
      Wc([], Terminal, [a, b], fs) == Block(fs, a, DefaultOptions, w) + Block(fs, b, DefaultOptions, w) + [Row(r, w, Some("total"))]
  {
    TotalOfFileAndNothing(fs, a, b, t);
    TwoArgumentsTotal(fs, a, b, CalculateStats(t, DefaultOptions));
  }

  /** A directory and then a file: the directory's diagnostic and zero row, the file's row, the total. */
  lemma DirectoryThenFile(fs: FileSystem, a: string, b: string, t: string)
    requires a != b && a in fs && fs[a] == Dir && b in fs && fs[b] == File(t)
    ensures |CalculateStats(t, DefaultOptions)| > 0
    ensures var r := CalculateStats(t, DefaultOptions);
      var w := Width(r);
      Wc([], Terminal, [a, b], fs)
        == [IsADirectory(a), Row(ZeroStats, w, Some(a))] + [Row(r, w, Some(b))] + [Row(r, w, Some("total"))]
  {
    DirectoryThenFileTotal(fs, a, b, t);
    var w := Width(CalculateStats(t, DefaultOptions));
    DirBlock(fs, a, w);
    FileBlock(fs, b, t, w);
  }

  lemma DirectoryThenFileTotal(fs: FileSystem, a: string, b: string, t: string)
    requires a != b && a in fs && fs[a] == Dir && b in fs && fs[b] == File(t)
    ensures |CalculateStats(t, DefaultOptions)| > 0
    ensures var r := CalculateStats(t, DefaultOptions);
      var w := Width(r);
      Wc([], Terminal, [a, b], fs) == Block(fs, a, DefaultOptions, w) + Block(fs, b, DefaultOptions, w) + [Row(r, w, Some("total"))]
  {
    TotalOfNothingAndFile(fs, a, b, t);
    TwoArgumentsTotal(fs, a, b, CalculateStats(t, DefaultOptions));
  }

  lemma Concat3(x: Line, y: Line, z: Line)
    ensures [x] + [y] + [z] == [x, y, z]
  {
  }

  lemma Concat4(x: Line, y: Line, z: Line, u: Line)
    ensures [x, y] + [z] + [u] == [x, y, z, u]
  {
  }

  /** A file `"x y\n"` and an empty file: their rows, then a total of 1, 2 and 4. */
  lemma TwoFiles(fs: FileSystem, a: string, b: string, t: string)
    requires t == "x y\n"
    requires a != b && a in fs && fs[a] == File(t) && b in fs && fs[b] == File("")
    ensures Wc([], Terminal, [a, b], fs)
      == [Row(XyStats, 7, Some(a)), Row(ZeroStats, 7, Some(b)), Row(XyStats, 7, Some("total"))]
  {
    XyRecord(t);
    XyWidth();
    FileThenEmptyFile(fs, a, b, t);
    Concat3(Row(XyStats, 7, Some(a)), Row(ZeroStats, 7, Some(b)), Row(XyStats, 7, Some("total")));
  }

  /** A directory and the file `"x y\n"`: the total holds only the file's counts. */
  lemma DirectoryAndFile(fs: FileSystem, d: string, f: string, t: string)
    requires t == "x y\n"
    requires d != f && d in fs && fs[d] == Dir && f in fs && fs[f] == File(t)
    ensures Wc([], Terminal, [d, f], fs)
      == [IsADirectory(d), Row(ZeroStats, 7, Some(d)), Row(XyStats, 7, Some(f)), Row(XyStats, 7, Some("total"))]
  {
    XyRecord(t);
    XyWidth();
    DirectoryThenFile(fs, d, f, t);
    Concat4(IsADirectory(d), Row(ZeroStats, 7, Some(d)), Row(XyStats, 7, Some(f)), Row(XyStats, 7, Some("total")));
  }

  lemma RepeatedDistinct(p: string)
    ensures Distinct([p, p]) == [p]
  {
    assert [p, p][..1] == [p];
    OneDistinct(p);
  }

  /** The total of a path given twice holds that path's counts once. */
  lemma RepeatedPathTotal(fs: FileSystem, p: string, opts: seq<Metric>)
    requires p in fs
    ensures TotalOf(fs, [p, p], opts) == StatsFor(fs, p, opts)
  {
    RepeatedDistinct(p);
    forall m
      ensures PathSum(fs, Distinct([p, p]), opts, m) == ValueOf(StatsFor(fs, p, opts), m)
    {
      assert [p][..0] == [];
      assert PathSum(fs, [p], opts, m) == Contribution(fs, p, opts, m);
      match fs[p]
      case Dir =>
      case File(_) =>
    }
    TotalFromSums(fs, [p, p], opts, StatsFor(fs, p, opts));
  }

  /**
   * A path given twice is reported once, but the two arguments still call
   * for a total row, which repeats that path's counts.
   */
  lemma RepeatedPath(fs: FileSystem, p: string, opts: seq<Metric>)
    requires p in fs && |opts| > 0
    ensures |StatsFor(fs, p, opts)| > 0
    ensures var w := Width(StatsFor(fs, p, opts));
      Report.Report(fs, opts, [p, p]) == Block(fs, p, opts, w) + [Row(StatsFor(fs, p, opts), w, Some("total"))]
  {
    RepeatedPathTotal(fs, p, opts);
    ReportIsBlocks(fs, opts, [p, p]);
    RepeatedDistinct(p);
    BlocksOne(fs, p, opts, Width(StatsFor(fs, p, opts)));
  }
}
