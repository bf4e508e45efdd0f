/**
 * Per-path resolution (main_wc.rb:23-42): every path argument is looked
 * up once, in order, and stored in two insertion-ordered hashes keyed by
 * path, `path_type` and `files_stats`.
 *
 * The file system is a value: a map from path to node, where a path that
 * is not a key does not exist.
 */
module Resolve {

  import opened Metrics
  import opened Stats
  import opened OrderedMaps

  /** What an existing path names. */
  datatype Node = Dir | File(text: string)

  type FileSystem = map<string, Node>

  /** The values of `path_type`. */
  datatype PathType = NotFound | Directory | RegularFile

  /** `File.exist?` and `File.directory?` on one path. */
  function Classify(fs: FileSystem, p: string): PathType {
    if p !in fs then NotFound
    else match fs[p]
      case Dir => Directory
      case File(_) => RegularFile
  }

  /**
   * The record stored for an existing path: zeros over the selected metrics
   * for a directory (main_wc.rb:36-37), the statistics of the content for
   * a file (main_wc.rb:41).
   */
  function StatsFor(fs: FileSystem, p: string, opts: seq<Metric>): (r: Record)
    requires p in fs
    ensures Keys(r) == Selected(opts)
  {
    match fs[p]
    case Dir => Zeros(opts)
    case File(text) => CalculateStats(text, opts)
  }

  datatype Resolution = Resolution(pathType: OrderedMap<PathType>, fileStats: OrderedMap<Record>)

  /** One iteration of the loop over the paths (main_wc.rb:29-42). */
  function Step(fs: FileSystem, acc: Resolution, p: string, opts: seq<Metric>): Resolution {
    if p !in fs then
      acc.(pathType := Put(acc.pathType, p, NotFound))
    else match fs[p]
      case Dir =>
        Resolution(Put(acc.pathType, p, Directory), Put(acc.fileStats, p, Zeros(opts)))
      case File(text) =>
        Resolution(Put(acc.pathType, p, RegularFile), Put(acc.fileStats, p, CalculateStats(text, opts)))
  }

  /**
   * The paths without repetitions, in order of first occurrence: whatever
   * comes before a path in the result occurs in the arguments before every
   * occurrence of that path.
   */
  function Distinct(ps: seq<string>): (d: seq<string>)
    ensures forall p :: p in d <==> p in ps
    ensures forall i, j :: 0 <= i < j < |d| ==> d[i] != d[j]
    ensures FirstOccurrenceOrder(ps, d)
  {
    if ps == [] then []
    else
      var init := ps[..|ps| - 1];
      var x := ps[|ps| - 1];
      var d := Distinct(init);
      assert forall p :: p in ps <==> p in init || p == x;
      var r := if x in d then d else d + [x];
      DistinctOrderStep(ps, d, r);
      r
  }

  /** Every earlier entry of d occurs in ps before each occurrence of a later one. */
  predicate FirstOccurrenceOrder(ps: seq<string>, d: seq<string>) {
    forall i, j, k :: 0 <= i < j < |d| && 0 <= k < |ps| && ps[k] == d[j] ==> d[i] in ps[..k]
  }

  lemma DistinctOrderStep(ps: seq<string>, d: seq<string>, r: seq<string>)
    requires ps != []
    requires forall p :: p in d <==> p in ps[..|ps| - 1]
    requires FirstOccurrenceOrder(ps[..|ps| - 1], d)
    requires r == if ps[|ps| - 1] in d then d else d + [ps[|ps| - 1]]
    ensures FirstOccurrenceOrder(ps, r)
  {
    var n := |ps| - 1;
    var init := ps[..n];
    forall i, j, k | 0 <= i < j < |r| && 0 <= k < |ps| && ps[k] == r[j]
      ensures r[i] in ps[..k]
    {
      if k == n {
        assert r[i] == d[i] && d[i] in d;
        assert ps[..k] == init;
      } else if j < |d| {
        assert init[k] == d[j];
        assert r[i] == d[i] && d[i] in init[..k];
        assert init[..k] == ps[..k];
      } else {
        assert false;
      }
    }
  }

  /** The reference `path_type`: each of the given paths with its type. */
  function TypeTable(fs: FileSystem, ps: seq<string>): (t: OrderedMap<PathType>)
    ensures KeysOf(t) == ps
  {
    seq(|ps|, i requires 0 <= i < |ps| => (ps[i], Classify(fs, ps[i])))
  }

  /** The reference `files_stats`: each existing one of the given paths with its record. */
  function StatsTable(fs: FileSystem, ps: seq<string>, opts: seq<Metric>): (t: OrderedMap<Record>)
    ensures forall p :: p in KeysOf(t) <==> p in ps && p in fs
    ensures forall i :: 0 <= i < |t| ==> t[i].0 in fs && t[i].1 == StatsFor(fs, t[i].0, opts)
  {
    if ps == [] then []
    else
      var p := ps[|ps| - 1];
      var t := StatsTable(fs, ps[..|ps| - 1], opts);
      assert forall q :: q in ps <==> q in ps[..|ps| - 1] || q == p;
      if p in fs then
        assert KeysOf(t + [(p, StatsFor(fs, p, opts))]) == KeysOf(t) + [p];
        t + [(p, StatsFor(fs, p, opts))]
      else t
  }

  /**
   * The loop over the path arguments, in order. Its result is the table of
   * the distinct paths in order of first occurrence: `path_type` has every
   * distinct path with its type and `files_stats` every distinct existing
   * one with its record, so a repeated path is stored once.
   */
  function ResolveAll(fs: FileSystem, paths: seq<string>, opts: seq<Metric>): (r: Resolution)
    ensures r == Resolution(TypeTable(fs, Distinct(paths)), StatsTable(fs, Distinct(paths), opts))
  {
    if paths == [] then Resolution([], [])
    else
      var init := paths[..|paths| - 1];
      var p := paths[|paths| - 1];
      var acc := ResolveAll(fs, init, opts);
      var d := Distinct(init);
      var r := Step(fs, acc, p, opts);
      StepAgrees(fs, d, p, opts);
      r
  }

  /** One step adds path p to the tables of the paths d seen so far. */
  lemma StepAgrees(fs: FileSystem, d: seq<string>, p: string, opts: seq<Metric>)
    ensures var d' := if p in d then d else d + [p];
      Step(fs, Resolution(TypeTable(fs, d), StatsTable(fs, d, opts)), p, opts)
        == Resolution(TypeTable(fs, d'), StatsTable(fs, d', opts))
  {
    StepPuts(fs, Resolution(TypeTable(fs, d), StatsTable(fs, d, opts)), p, opts);
    if p in d {
      StepSeen(fs, d, p, opts);
    } else {
      StepNew(fs, d, p, opts);
    }
  }

  /** A path seen before is stored again with the same type and record. */
  lemma StepSeen(fs: FileSystem, d: seq<string>, p: string, opts: seq<Metric>)
    requires p in d
    ensures Put(TypeTable(fs, d), p, Classify(fs, p)) == TypeTable(fs, d)
    ensures p in fs ==> Put(StatsTable(fs, d, opts), p, StatsFor(fs, p, opts)) == StatsTable(fs, d, opts)
  {
    PutSame(TypeTable(fs, d), p, Classify(fs, p));
    if p in fs {
      PutSame(StatsTable(fs, d, opts), p, StatsFor(fs, p, opts));
    }
  }

  /** A new path is appended to both tables, to `files_stats` only when it exists. */
  lemma StepNew(fs: FileSystem, d: seq<string>, p: string, opts: seq<Metric>)
    requires p !in d
    ensures Put(TypeTable(fs, d), p, Classify(fs, p)) == TypeTable(fs, d + [p])
    ensures p in fs ==> Put(StatsTable(fs, d, opts), p, StatsFor(fs, p, opts)) == StatsTable(fs, d + [p], opts)
    ensures p !in fs ==> StatsTable(fs, d, opts) == StatsTable(fs, d + [p], opts)
  {
    PutNew(TypeTable(fs, d), p, Classify(fs, p));
    TablesAppend(fs, d, p, opts);
    if p in fs {
      PutNew(StatsTable(fs, d, opts), p, StatsFor(fs, p, opts));
    }
  }

  /** A step stores the path's type, and its record when it exists. */
  lemma StepPuts(fs: FileSystem, acc: Resolution, p: string, opts: seq<Metric>)
    ensures Step(fs, acc, p, opts)
      == Resolution(Put(acc.pathType, p, Classify(fs, p)),
                    if p in fs then Put(acc.fileStats, p, StatsFor(fs, p, opts)) else acc.fileStats)
  {
  }

  lemma TablesAppend(fs: FileSystem, d: seq<string>, p: string, opts: seq<Metric>)
    ensures TypeTable(fs, d + [p]) == TypeTable(fs, d) + [(p, Classify(fs, p))]
    ensures StatsTable(fs, d + [p], opts)
      == if p in fs then StatsTable(fs, d, opts) + [(p, StatsFor(fs, p, opts))] else StatsTable(fs, d, opts)
  {
    assert (d + [p])[..|d|] == d;
  }
}
