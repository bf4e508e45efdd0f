/**
 * Column width, row rendering and the report (main_wc.rb:5-63, 81-89),
 * with standard input, the file system and the option list as values.
 *
 * A report is a list of lines; `Render` gives the text each line prints.
 */
module Report {

  import opened Optional
  import opened Metrics
  import opened Stats
  import opened Decimal
  import opened OrderedMaps
  import opened Resolve
  import opened Aggregate

  /** The longest spelling among the values of a non-empty record. */
  function MaxLength(r: Record): (n: nat)
    requires |r| > 0
    ensures forall i :: 0 <= i < |r| ==> |ToDecimal(r[i].value)| <= n
    ensures exists i :: 0 <= i < |r| && n == |ToDecimal(r[i].value)|
  {
    var head := |ToDecimal(r[0].value)|;
    if |r| == 1 then head
    else
      var rest := MaxLength(r[1..]);
      assert forall i :: 1 <= i < |r| ==> r[1..][i - 1] == r[i];
      if head >= rest then head else rest
  }

  /**
   * `calculate_width`: one more than the longest spelling among the
   * record's values, and never less than 7.
   */
  function Width(total: Record): (w: nat)
    requires |total| > 0
    ensures w >= 7
    ensures forall i :: 0 <= i < |total| ==> |ToDecimal(total[i].value)| < w
    ensures w == 7 || exists i :: 0 <= i < |total| && w == |ToDecimal(total[i].value)| + 1
  {
    var longest := MaxLength(total);
    if longest + 1 >= 7 then longest + 1 else 7
  }

  /** Every value of the record is spelled in fewer than `width` characters. */
  predicate FitsStrictly(stats: Record, width: nat) {
    forall i :: 0 <= i < |stats| ==> |ToDecimal(stats[i].value)| < width
  }

  /** One field of a row: the value right-justified to `width`, then a space. */
  function Field(v: nat, width: nat): string {
    PadLeft(ToDecimal(v), width) + " "
  }

  /**
   * `print_stats`: the fields of the record's values in the record's order.
   * When every value fits, each field is exactly `width` characters and a
   * space.
   */
  function PrintStats(stats: Record, width: nat): (s: string)
    ensures FitsStrictly(stats, width) ==> |s| == |stats| * (width + 1)
  {
    if stats == [] then ""
    else
      var rest := PrintStats(stats[1..], width);
      var field := Field(stats[0].value, width);
      if FitsStrictly(stats, width) then
        FitsTail(stats, width);
        RowLength(|stats|, |rest|, width);
        field + rest
      else
        field + rest
  }

  lemma FitsTail(stats: Record, width: nat)
    requires stats != [] && FitsStrictly(stats, width)
    ensures FitsStrictly(stats[1..], width)
    ensures |Field(stats[0].value, width)| == width + 1
  {
    assert forall i :: 1 <= i < |stats| ==> stats[1..][i - 1] == stats[i];
  }

  lemma RowLength(n: nat, restLength: nat, width: nat)
    requires n >= 1 && restLength == (n - 1) * (width + 1)
    ensures width + 1 + restLength == n * (width + 1)
  {
  }

  /** Reads a row back: each `width + 1` characters, spaces dropped, as a number. */
  function ReadRow(s: string, width: nat): seq<int>
    decreases |s|
  {
    if |s| < width + 1 then []
    else [ParseDecimal(DropLeadingSpaces(s[..width]))] + ReadRow(s[width + 1..], width)
  }

  /** A printed row reads back as the record's values, in order. */
  lemma {:induction false} ReadBackRow(stats: Record, width: nat)
    requires FitsStrictly(stats, width)
    ensures ReadRow(PrintStats(stats, width), width) == Values(stats)
  {
    if stats != [] {
      var v := stats[0].value;
      var s := PrintStats(stats, width);
      FirstField(stats, width);
      ReadRowStep(s, width);
      ReadPadded(v, width);
      ReadBackRow(stats[1..], width);
      ValuesCons(stats);
    }
  }

  lemma ValuesCons(r: Record)
    requires r != []
    ensures Values(r) == [r[0].value] + Values(r[1..])
  {
  }

  lemma ReadRowStep(s: string, width: nat)
    requires |s| >= width + 1
    ensures ReadRow(s, width) == [ParseDecimal(DropLeadingSpaces(s[..width]))] + ReadRow(s[width + 1..], width)
  {
  }

  /** A printed row starts with its first field, a space, and the rest of the row. */
  lemma FirstField(stats: Record, width: nat)
    requires FitsStrictly(stats, width) && stats != []
    ensures FitsStrictly(stats[1..], width)
    ensures var s := PrintStats(stats, width);
      && |s| >= width + 1
      && s[..width] == PadLeft(ToDecimal(stats[0].value), width)
      && s[width + 1..] == PrintStats(stats[1..], width)
  {
    FitsTail(stats, width);
    var pad := PadLeft(ToDecimal(stats[0].value), width);
    var f := Field(stats[0].value, width);
    var rest := PrintStats(stats[1..], width);
    assert PrintStats(stats, width) == f + rest;
    assert |pad| == width;
    assert (f + rest)[..width] == pad;
    assert (f + rest)[width + 1..] == rest;
  }

  /** One line of output. */
  datatype Line =
    | NeedArgs                                     // `Need ARGV`
    | NoSuchFile(path: string)                     // `wc: <path>: No such file or directory`
    | IsADirectory(path: string)                   // `wc: <path>: Is a directory`
    | Row(stats: Record, width: nat, name: Option<string>)

  /** `puts s`: s, then a newline unless s already ends with one. */
  function Puts(s: string): (out: string)
    ensures |out| > 0 && out[|out| - 1] == '\n'
    ensures out == s || out == s + "\n"
    ensures out == s <==> |s| > 0 && s[|s| - 1] == '\n'
  {
    if |s| > 0 && s[|s| - 1] == '\n' then s else s + "\n"
  }

  /** The text a line prints; it always ends with a newline. */
  function Render(line: Line): (s: string)
    ensures |s| > 0 && s[|s| - 1] == '\n'
  {
    match line
    case NeedArgs => "Need ARGV\n"
    case NoSuchFile(p) => Puts("wc: " + p + ": No such file or directory")
    case IsADirectory(p) => Puts("wc: " + p + ": Is a directory")
    case Row(stats, w, name) =>
      var tail := Puts(match name case None => "" case Some(p) => " " + p);
      PrintStats(stats, w) + tail
  }

  /** The diagnostics name the path and always end in exactly one newline. */
  lemma DiagnosticText(p: string)
    ensures Render(NoSuchFile(p)) == "wc: " + p + ": No such file or directory\n"
    ensures Render(IsADirectory(p)) == "wc: " + p + ": Is a directory\n"
  {
    var a := "wc: " + p + ": No such file or directory";
    var b := "wc: " + p + ": Is a directory";
    assert a[|a| - 1] == 'y';
    assert b[|b| - 1] == 'y';
  }

  /**
   * A row is its fields and then, for a file, a space and the path; `puts`
   * adds the newline only when the path does not already end with one.
   */
  lemma RowText(stats: Record, w: nat, name: Option<string>)
    ensures Render(Row(stats, w, name)) == PrintStats(stats, w) +
      match name
      case None => "\n"
      case Some(p) => " " + p + (if |p| > 0 && p[|p| - 1] == '\n' then "" else "\n")
  {
    if name.Some? {
      var p := name.value;
      if |p| > 0 {
        assert (" " + p)[|" " + p| - 1] == p[|p| - 1];
      }
    }
  }

  /** Everything the report prints, line after line. */
  function Output(lines: seq<Line>): string {
    if lines == [] then "" else Render(lines[0]) + Output(lines[1..])
  }

  /** The report loop over `path_type` (main_wc.rb:48-58). */
  function PathLines(types: OrderedMap<PathType>, stats: OrderedMap<Record>, w: nat): seq<Line>
    requires forall i :: 0 <= i < |types| && types[i].1 != NotFound ==> types[i].0 in KeysOf(stats)
  {
    if types == [] then []
    else
      var p := types[0].0;
      var first :=
        match types[0].1
        case NotFound => [NoSuchFile(p)]
        case Directory => [IsADirectory(p), Row(Get(stats, p), w, Some(p))]
        case RegularFile => [Row(Get(stats, p), w, Some(p))];
      first + PathLines(types[1..], stats, w)
  }

  lemma SelectedNonEmpty(opts: seq<Metric>)
    requires |opts| > 0
    ensures |Selected(opts)| > 0
  {
    assert opts[0] in Selected(opts);
  }

  /**
   * The lines for several path arguments (main_wc.rb:23-63): the lines of
   * each distinct path, then the total row when two or more arguments were
   * given.
   */
  function Report(fs: FileSystem, opts: seq<Metric>, paths: seq<string>): seq<Line>
    requires |opts| > 0
  {
    var res := ResolveAll(fs, paths, opts);
    var total := Total(res.fileStats, opts);
    SelectedNonEmpty(opts);
    var w := Width(total);
    PathLines(res.pathType, res.fileStats, w)
    + (if |paths| >= 2 then [Row(total, w, Some("total"))] else [])
  }

  /** Whether standard input is a terminal, and if not, what it holds. */
  datatype Stdin = Terminal | Piped(text: string)

  /** Piped input: one unlabelled row whose width comes from its own record. */
  function PipedLines(text: string, opts: seq<Metric>): (lines: seq<Line>)
    requires |opts| > 0
  {
    var stats := CalculateStats(text, opts);
    SelectedNonEmpty(opts);
    [Row(stats, Width(stats), None)]
  }

  /**
   * `main` after option parsing: piped input is counted as one unlabelled
   * row whose width comes from its own record; otherwise the path
   * arguments are reported, and with none there is only the usage line.
   */
  function Wc(flags: seq<Metric>, stdin: Stdin, args: seq<string>, fs: FileSystem): (lines: seq<Line>)
    ensures stdin.Terminal? && args == [] ==> lines == [NeedArgs]
    ensures stdin.Piped? ==>
      var stats := CalculateStats(stdin.text, EffectiveOptions(flags));
      && |stats| > 0
      && lines == [Row(stats, Width(stats), None)]
      && FitsStrictly(stats, Width(stats))
    ensures stdin.Terminal? && args != [] ==>
      var opts := EffectiveOptions(flags);
      var total := TotalOf(fs, args, opts);
      && |total| > 0
      && lines == Blocks(fs, Distinct(args), opts, Width(total))
                  + (if |args| >= 2 then [Row(total, Width(total), Some("total"))] else [])
  {
    var opts := EffectiveOptions(flags);
    match stdin
    case Piped(text) => PipedLines(text, opts)
    case Terminal =>
      if args == [] then [NeedArgs]
      else
        ReportIsBlocks(fs, opts, args);
        Report(fs, opts, args)
  }

  /**
   * The lines of one path: a missing path gets only its diagnostic; a
   * directory its diagnostic and then a zero row; a file its row.
   */
  function Block(fs: FileSystem, p: string, opts: seq<Metric>, w: nat): seq<Line> {
    if p !in fs then [NoSuchFile(p)]
    else match fs[p]
      case Dir => [IsADirectory(p), Row(Zeros(opts), w, Some(p))]
      case File(text) => [Row(CalculateStats(text, opts), w, Some(p))]
  }

  function Blocks(fs: FileSystem, ps: seq<string>, opts: seq<Metric>, w: nat): seq<Line> {
    if ps == [] then [] else Block(fs, ps[0], opts, w) + Blocks(fs, ps[1..], opts, w)
  }

  lemma {:induction false} PathLinesAreBlocks(fs: FileSystem, ps: seq<string>, stats: OrderedMap<Record>, opts: seq<Metric>, w: nat)
    requires forall p :: p in ps && p in fs ==> p in KeysOf(stats)
    requires forall i :: 0 <= i < |stats| ==> stats[i].0 in fs && stats[i].1 == StatsFor(fs, stats[i].0, opts)
    ensures forall i :: 0 <= i < |TypeTable(fs, ps)| && TypeTable(fs, ps)[i].1 != NotFound ==> TypeTable(fs, ps)[i].0 in KeysOf(stats)
    ensures PathLines(TypeTable(fs, ps), stats, w) == Blocks(fs, ps, opts, w)
  {
    var types := TypeTable(fs, ps);
    assert forall i :: 0 <= i < |types| ==> types[i] == (ps[i], Classify(fs, ps[i]));
    if ps != [] {
      var p := ps[0];
      assert types[1..] == TypeTable(fs, ps[1..]);
      PathLinesAreBlocks(fs, ps[1..], stats, opts, w);
      if p in fs {
        StoredStats(fs, stats, opts, p);
      }
    }
  }

  /** A path's entry in a table of `StatsFor` rows is its `StatsFor`. */
  lemma StoredStats(fs: FileSystem, stats: OrderedMap<Record>, opts: seq<Metric>, p: string)
    requires p in KeysOf(stats)
    requires forall i :: 0 <= i < |stats| ==> stats[i].0 in fs && stats[i].1 == StatsFor(fs, stats[i].0, opts)
    ensures Get(stats, p) == StatsFor(fs, p, opts)
  {
    var j :| 0 <= j < |stats| && stats[j] == (p, Get(stats, p));
  }

  /**
   * The report is, for each distinct path in order of first occurrence,
   * that path's lines, and then the total row if and only if at least two
   * path arguments were given, repetitions included.
   */
  lemma ReportIsBlocks(fs: FileSystem, opts: seq<Metric>, paths: seq<string>)
    requires |opts| > 0
    ensures |TotalOf(fs, paths, opts)| > 0
    ensures var total := TotalOf(fs, paths, opts);
      var w := Width(total);
      Report(fs, opts, paths)
        == Blocks(fs, Distinct(paths), opts, w)
           + (if |paths| >= 2 then [Row(total, w, Some("total"))] else [])
  {
    var d := Distinct(paths);
    SelectedNonEmpty(opts);
    TotalIsPathSum(fs, paths, opts);
    PathLinesAreBlocks(fs, d, StatsTable(fs, d, opts), opts, Width(TotalOf(fs, paths, opts)));
  }

  /** Every row of the lines of the given paths is the stored record of one of them. */
  lemma {:induction false} BlockRows(fs: FileSystem, ps: seq<string>, opts: seq<Metric>, w: nat, i: nat)
    requires i < |Blocks(fs, ps, opts, w)| && Blocks(fs, ps, opts, w)[i].Row?
    ensures var line := Blocks(fs, ps, opts, w)[i];
      exists p :: p in ps && p in fs && line == Row(StatsFor(fs, p, opts), w, Some(p))
  {
    var first := Block(fs, ps[0], opts, w);
    var rest := Blocks(fs, ps[1..], opts, w);
    assert Blocks(fs, ps, opts, w) == first + rest;
    if i < |first| {
      assert (first + rest)[i] == first[i];
      assert ps[0] in ps;
      assert ps[0] in fs && first[i] == Row(StatsFor(fs, ps[0], opts), w, Some(ps[0]));
    } else {
      assert (first + rest)[i] == rest[i - |first|];
      BlockRows(fs, ps[1..], opts, w, i - |first|);
      var p :| p in ps[1..] && p in fs && rest[i - |first|] == Row(StatsFor(fs, p, opts), w, Some(p));
      assert p in ps;
    }
  }

  /** Every row has width at least 7 and every value fits in fewer characters. */
  predicate Aligned(lines: seq<Line>) {
    forall i :: 0 <= i < |lines| && lines[i].Row? ==>
      lines[i].width >= 7 && FitsStrictly(lines[i].stats, lines[i].width)
  }

  /**
   * Alignment: every row of every report has width at least 7 and every
   * value spelled in fewer characters than the width, so each rendered field
   * is exactly `width` characters with a space before the digits. Per-path
   * rows fit because no path's value exceeds the total's.
   */
  lemma RowsAligned(flags: seq<Metric>, stdin: Stdin, args: seq<string>, fs: FileSystem)
    ensures Aligned(Wc(flags, stdin, args, fs))
  {
    var opts := EffectiveOptions(flags);
    match stdin
    case Piped(text) =>
      PipedAligned(text, opts);
      WcPiped(flags, text, args, fs);
    case Terminal =>
      WcTerminal(flags, args, fs);
      if args != [] {
        ReportAligned(fs, opts, args);
      }
  }

  lemma WcPiped(flags: seq<Metric>, text: string, args: seq<string>, fs: FileSystem)
    ensures Wc(flags, Piped(text), args, fs) == PipedLines(text, EffectiveOptions(flags))
  {
  }

  lemma WcTerminal(flags: seq<Metric>, args: seq<string>, fs: FileSystem)
    ensures args != [] ==> Wc(flags, Terminal, args, fs) == Report(fs, EffectiveOptions(flags), args)
    ensures args == [] ==> Wc(flags, Terminal, args, fs) == [NeedArgs]
  {
  }

  lemma PipedAligned(text: string, opts: seq<Metric>)
    requires |opts| > 0
    ensures Aligned(PipedLines(text, opts))
  {
  }

  lemma ReportAligned(fs: FileSystem, opts: seq<Metric>, args: seq<string>)
    requires |opts| > 0
    ensures Aligned(Report(fs, opts, args))
  {
    var lines := Report(fs, opts, args);
    forall i | 0 <= i < |lines| && lines[i].Row?
      ensures lines[i].width >= 7 && FitsStrictly(lines[i].stats, lines[i].width)
    {
      ReportRowFits(fs, opts, args, i);
    }
  }

  /** One row of a report over path arguments is aligned. */
  lemma ReportRowFits(fs: FileSystem, opts: seq<Metric>, args: seq<string>, i: nat)
    requires |opts| > 0
    requires i < |Report(fs, opts, args)| && Report(fs, opts, args)[i].Row?
    ensures Report(fs, opts, args)[i].width >= 7
    ensures FitsStrictly(Report(fs, opts, args)[i].stats, Report(fs, opts, args)[i].width)
  {
    var line := Report(fs, opts, args)[i];
    ReportIsBlocks(fs, opts, args);
    var total := TotalOf(fs, args, opts);
    var w := Width(total);
    var blocks := Blocks(fs, Distinct(args), opts, w);
    if i < |blocks| {
      assert line == blocks[i];
      BlockRows(fs, Distinct(args), opts, w, i);
      var p :| p in Distinct(args) && p in fs && line == Row(StatsFor(fs, p, opts), w, Some(p));
      PathRowFits(fs, args, p, opts);
    } else {
      assert line == Row(total, w, Some("total"));
    }
  }

  /** The row of one path fits the width computed from the total. */
  lemma PathRowFits(fs: FileSystem, args: seq<string>, p: string, opts: seq<Metric>)
    requires p in args && p in fs && |opts| > 0
    ensures |TotalOf(fs, args, opts)| > 0
    ensures FitsStrictly(StatsFor(fs, p, opts), Width(TotalOf(fs, args, opts)))
  {
    var total := TotalOf(fs, args, opts);
    TotalIsPathSum(fs, args, opts);
    SelectedNonEmpty(opts);
    var r := StatsFor(fs, p, opts);
    forall j | 0 <= j < |r|
      ensures |ToDecimal(r[j].value)| < Width(total)
    {
      PathValueAtMostTotal(fs, args, p, opts, j);
      DecimalLengthMonotone(r[j].value, total[j].value);
    }
  }
}
