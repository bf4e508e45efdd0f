/**
 * The word count of `wc`: the number of fields `text.split(/\s+/)` returns
 * (main_wc.rb:100-102).
 *
 * Ruby's `\s` is `[ \t\n\v\f\r]`. Splitting on a regular expression keeps
 * an empty first field when the text starts with whitespace and drops every
 * empty field at the end, so `" a b"` has three fields and `""` and `"  "`
 * have none.
 */
module Words {

  /** The characters of Ruby's `\s`. */
  predicate IsSpace(c: char) {
    c == ' ' || c == '\t' || c == '\n' || c == '\U{000B}' || c == '\U{000C}' || c == '\r'
  }

  predicate AllSpace(s: string) {
    forall i :: 0 <= i < |s| ==> IsSpace(s[i])
  }

  /** Length of the longest prefix of s without whitespace. */
  function FieldLength(s: string): (k: nat)
    ensures k <= |s|
    ensures forall i :: 0 <= i < k ==> !IsSpace(s[i])
    ensures k < |s| ==> IsSpace(s[k])
  {
    if s == [] || IsSpace(s[0]) then 0 else 1 + FieldLength(s[1..])
  }

  /** Length of the longest prefix of s made of whitespace. */
  function SpaceRunLength(s: string): (k: nat)
    ensures k <= |s|
    ensures forall i :: 0 <= i < k ==> IsSpace(s[i])
    ensures k < |s| ==> !IsSpace(s[k])
  {
    if s == [] || !IsSpace(s[0]) then 0 else 1 + SpaceRunLength(s[1..])
  }

  /**
   * The fields between maximal whitespace runs, before trailing empty fields
   * are dropped: a field, then, if whitespace follows, the fields after the
   * whole run.
   */
  function RawFields(s: string): (fields: seq<string>)
    ensures |fields| > 0
    decreases |s|
  {
    var k := FieldLength(s);
    if k == |s| then [s]
    else
      var j := k + SpaceRunLength(s[k..]);
      [s[..k]] + RawFields(s[j..])
  }

  /** Removes the empty fields at the end, as `split` does without a limit. */
  function DropTrailingEmpty(fields: seq<string>): (r: seq<string>)
    ensures r <= fields
    ensures r == [] || r[|r| - 1] != ""
    ensures forall i :: |r| <= i < |fields| ==> fields[i] == ""
  {
    if fields != [] && fields[|fields| - 1] == "" then DropTrailingEmpty(fields[..|fields| - 1])
    else fields
  }

  /** `text.split(/\s+/)`. */
  function Split(s: string): seq<string> {
    DropTrailingEmpty(RawFields(s))
  }

  /** `count_words`: the number of fields of the split. */
  function WordCount(s: string): nat {
    |Split(s)|
  }

  /**
   * The classic word count, as a scan: the number of non-whitespace
   * characters that follow whitespace or, when `afterSpace` holds, start
   * the text; that is, the number of maximal non-whitespace runs.
   */
  function RunsFrom(s: string, afterSpace: bool): nat {
    if s == [] then 0
    else (if afterSpace && !IsSpace(s[0]) then 1 else 0) + RunsFrom(s[1..], IsSpace(s[0]))
  }

  function Runs(s: string): nat {
    RunsFrom(s, true)
  }

  lemma {:induction false} RunsZeroIff(s: string)
    ensures Runs(s) == 0 <==> AllSpace(s)
  {
    if s != [] && IsSpace(s[0]) {
      RunsZeroIff(s[1..]);
      assert AllSpace(s) <==> AllSpace(s[1..]) by {
        assert forall i :: 1 <= i < |s| ==> s[1..][i - 1] == s[i];
      }
    }
  }

  /** Skipping a whitespace run leaves the scan just after whitespace. */
  lemma {:induction false} SkipSpaces(s: string, m: nat, afterSpace: bool)
    requires 1 <= m <= |s|
    requires forall i :: 0 <= i < m ==> IsSpace(s[i])
    ensures RunsFrom(s, afterSpace) == RunsFrom(s[m..], true)
  {
    if m > 1 {
      SkipSpaces(s[1..], m - 1, true);
      assert s[1..][m - 1..] == s[m..];
    }
  }

  /** Skipping a non-whitespace run counts it once if it starts a word. */
  lemma {:induction false} SkipWord(s: string, k: nat, afterSpace: bool)
    requires 1 <= k <= |s|
    requires forall i :: 0 <= i < k ==> !IsSpace(s[i])
    ensures RunsFrom(s, afterSpace) == (if afterSpace then 1 else 0) + RunsFrom(s[k..], false)
  {
    if k > 1 {
      SkipWord(s[1..], k - 1, false);
      assert s[1..][k - 1..] == s[k..];
    }
  }

  lemma {:induction false} DropCons(w: string, rest: seq<string>)
    ensures DropTrailingEmpty([w] + rest)
      == if w == "" && DropTrailingEmpty(rest) == [] then [] else [w] + DropTrailingEmpty(rest)
    decreases |rest|
  {
    if rest != [] && rest[|rest| - 1] == "" {
      assert ([w] + rest)[..|rest|] == [w] + rest[..|rest| - 1];
      DropCons(w, rest[..|rest| - 1]);
    }
  }

  /** For text that is empty or starts with a word, the split has one field per run. */
  lemma {:induction false} SplitCountsRuns(t: string)
    requires t == [] || !IsSpace(t[0])
    ensures |Split(t)| == Runs(t)
    decreases |t|
  {
    var k := FieldLength(t);
    if t == [] {
    } else if k == |t| {
      SkipWord(t, k, true);
    } else {
      var m := SpaceRunLength(t[k..]);
      assert t[k..][0] == t[k];
      assert forall i :: k <= i < k + m ==> t[k..][i - k] == t[i];
      SplitStep(t, k, m);
      RunsStep(t, k, m);
      SplitCountsRuns(t[k + m..]);
    }
  }

  /** A leading word followed by whitespace is one field, then the fields after the whitespace. */
  lemma SplitStep(t: string, k: nat, m: nat)
    requires 1 <= k < |t| && k == FieldLength(t) && m == SpaceRunLength(t[k..])
    ensures |Split(t)| == 1 + |Split(t[k + m..])|
  {
    RawFieldsStep(t, k, m);
    DropCons(t[..k], RawFields(t[k + m..]));
  }

  lemma RawFieldsStep(t: string, k: nat, m: nat)
    requires 1 <= k < |t| && k == FieldLength(t) && m == SpaceRunLength(t[k..])
    ensures t[..k] != ""
    ensures RawFields(t) == [t[..k]] + RawFields(t[k + m..])
  {
    var j := k + SpaceRunLength(t[k..]);
    assert j == k + m;
    assert RawFields(t) == [t[..k]] + RawFields(t[j..]);
    assert |t[..k]| == k;
  }

  /** The same step for the scan: one run, then the runs after the whitespace. */
  lemma RunsStep(t: string, k: nat, m: nat)
    requires 1 <= k && 1 <= m && k + m <= |t|
    requires forall i :: 0 <= i < k ==> !IsSpace(t[i])
    requires forall i :: k <= i < k + m ==> IsSpace(t[i])
    ensures Runs(t) == 1 + Runs(t[k + m..])
  {
    assert forall i :: 0 <= i < m ==> t[k..][i] == t[k + i];
    assert t[k..][m..] == t[k + m..];
    SkipWord(t, k, true);
    SkipSpaces(t[k..], m, false);
  }

  /**
   * The word count in terms of runs: 0 exactly when the text is empty or
   * all whitespace; otherwise the number of maximal non-whitespace runs,
   * plus one for the empty first field when the text starts with
   * whitespace.
   */
  lemma WordCountMatchesRuns(s: string)
    ensures WordCount(s) == 0 <==> AllSpace(s)
    ensures s != [] && !IsSpace(s[0]) ==> WordCount(s) == Runs(s)
    ensures s != [] && IsSpace(s[0]) && !AllSpace(s) ==> WordCount(s) == Runs(s) + 1
  {
    RunsZeroIff(s);
    if s == [] || !IsSpace(s[0]) {
      SplitCountsRuns(s);
    } else {
      var j := SpaceRunLength(s);
      assert s[..0] == "";
      DropCons("", RawFields(s[j..]));
      SplitCountsRuns(s[j..]);
      SkipSpaces(s, j, true);
    }
  }
}
