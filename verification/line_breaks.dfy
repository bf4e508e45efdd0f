/**
 * The line count of `wc`: the number of matches `text.scan(/\R/)` finds
 * (main_wc.rb:94).
 *
 * On UTF-8 text Ruby's `\R` is the atomic group
 * `(?>\r\n|[\n\v\f\r\u0085\u2028\u2029])`: a CR immediately followed by LF
 * is one match, and each other break character is a match of its own.
 */
module LineBreaks {

  /** The single characters `\R` matches. */
  predicate IsBreak(c: char) {
    || c == '\n' || c == '\U{000B}' || c == '\U{000C}' || c == '\r'
    || c == '\U{0085}' || c == '\U{2028}' || c == '\U{2029}'
  }

  predicate NoBreaks(s: string) {
    forall i :: 0 <= i < |s| ==> !IsBreak(s[i])
  }

  /**
   * The matches of a left-to-right scan for `\R`: at a CR followed by LF
   * the scan takes both characters as one match.
   */
  function LineCount(s: string): (n: nat)
    ensures n <= |s|
    ensures n == 0 <==> NoBreaks(s)
    decreases |s|
  {
    if |s| == 0 then 0
    else if |s| >= 2 && s[0] == '\r' && s[1] == '\n' then 1 + LineCount(s[2..])
    else if IsBreak(s[0]) then 1 + LineCount(s[1..])
    else
      assert forall i :: 1 <= i < |s| ==> s[1..][i - 1] == s[i];
      LineCount(s[1..])
  }

  /** 1 when the two strings meet in a CR LF pair that the scan joins, else 0. */
  function Joined(s: string, t: string): nat {
    if |s| > 0 && s[|s| - 1] == '\r' && |t| > 0 && t[0] == '\n' then 1 else 0
  }

  /**
   * Counting the concatenation counts both halves, less one when a CR ending
   * `s` and an LF starting `t` form a single CR LF break.
   */
  lemma {:induction false} LineCountAppend(s: string, t: string)
    ensures LineCount(s + t) == LineCount(s) + LineCount(t) - Joined(s, t)
    decreases |s|
  {
    if |s| == 0 {
      assert s + t == t;
    } else if |s| >= 2 && s[0] == '\r' && s[1] == '\n' {
      assert (s + t)[2..] == s[2..] + t;
      LineCountAppend(s[2..], t);
    } else if |s| == 1 && s[0] == '\r' {
      LoneCarriageReturn(s, t);
    } else {
      SingleStep(s, t);
      LineCountAppend(s[1..], t);
    }
  }

  /** Away from a CR LF pair, the scan takes one character of s at a time. */
  lemma SingleStep(s: string, t: string)
    requires |s| >= 1 && !(s[0] == '\r' && (|s| == 1 || s[1] == '\n'))
    ensures LineCount(s) == (if IsBreak(s[0]) then 1 else 0) + LineCount(s[1..])
    ensures LineCount(s + t) == (if IsBreak(s[0]) then 1 else 0) + LineCount(s[1..] + t)
    ensures Joined(s, t) == Joined(s[1..], t)
  {
    assert (s + t)[1..] == s[1..] + t;
    assert (s + t)[0] == s[0];
    if |s| >= 2 {
      assert (s + t)[1] == s[1];
    }
  }

  /** A CR ending s joins an LF starting t. */
  lemma LoneCarriageReturn(s: string, t: string)
    requires s == "\r"
    ensures LineCount(s + t) == 1 + LineCount(t) - Joined(s, t)
  {
    assert (s + t)[1..] == t;
    if |t| > 0 && t[0] == '\n' {
      assert (s + t)[2..] == t[1..];
    }
  }

  /**
   * Whether a match of `\R` starts at position i: a break character that is
   * not the LF of a CR LF pair.
   */
  predicate BreakStartsAt(s: string, i: nat)
    requires i < |s|
  {
    IsBreak(s[i]) && !(s[i] == '\n' && i > 0 && s[i - 1] == '\r')
  }

  /** The number of positions below k at which a match starts. */
  function BreakStarts(s: string, k: nat): nat
    requires k <= |s|
  {
    if k == 0 then 0
    else BreakStarts(s, k - 1) + (if BreakStartsAt(s, k - 1) then 1 else 0)
  }

  /**
   * The scan finds one match per position where a break character starts
   * a match, so a CR LF pair counts once and every other break counts once.
   */
  lemma {:induction false} LineCountByPosition(s: string, k: nat)
    requires k <= |s|
    ensures LineCount(s[..k]) == BreakStarts(s, k)
  {
    if k > 0 {
      LineCountByPosition(s, k - 1);
      assert s[..k] == s[..k - 1] + [s[k - 1]];
      LineCountAppend(s[..k - 1], [s[k - 1]]);
    }
  }

  /** The line count of a whole text, position by position. */
  lemma LineCountIsBreakStarts(s: string)
    ensures LineCount(s) == BreakStarts(s, |s|)
  {
    LineCountByPosition(s, |s|);
    assert s[..|s|] == s;
  }
}
