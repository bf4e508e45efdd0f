/**
 * `Integer#to_s` on counts and `String#rjust` with spaces, as used to
 * render a report field (main_wc.rb:82, 87).
 */
module Decimal {

  predicate IsDigit(c: char) {
    '0' <= c <= '9'
  }

  function DigitChar(d: nat): (c: char)
    requires d < 10
    ensures IsDigit(c)
  {
    ('0' as int + d) as char
  }

  function Pow10(k: nat): (p: nat)
    ensures p >= 1
  {
    if k == 0 then 1 else 10 * Pow10(k - 1)
  }

  /** The decimal spelling of a count: digits only, no leading zero. */
  function ToDecimal(n: nat): (s: string)
    ensures |s| >= 1
    ensures forall i :: 0 <= i < |s| ==> IsDigit(s[i])
    ensures s[0] == '0' ==> n == 0 && |s| == 1
    ensures n < Pow10(|s|)
    ensures n >= Pow10(|s| - 1) || n == 0
  {
    if n < 10 then [DigitChar(n)]
    else
      var prefix := ToDecimal(n / 10);
      assert n >= 10 * Pow10(|prefix| - 1);
      prefix + [DigitChar(n % 10)]
  }

  /** The value a run of digits spells. */
  function ParseDecimal(s: string): int {
    if s == [] then 0
    else 10 * ParseDecimal(s[..|s| - 1]) + (s[|s| - 1] as int - '0' as int)
  }

  /** Reading back the spelling of a count gives the count. */
  lemma {:induction false} ParseToDecimal(n: nat)
    ensures ParseDecimal(ToDecimal(n)) == n
  {
    if n >= 10 {
      var s := ToDecimal(n);
      assert s[..|s| - 1] == ToDecimal(n / 10);
      ParseToDecimal(n / 10);
    }
  }

  /** A larger count never has a shorter spelling. */
  lemma {:induction false} DecimalLengthMonotone(a: nat, b: nat)
    requires a <= b
    ensures |ToDecimal(a)| <= |ToDecimal(b)|
  {
    if a >= 10 {
      DecimalLengthMonotone(a / 10, b / 10);
    }
  }

  function Spaces(k: nat): (s: string)
    ensures |s| == k
    ensures forall i :: 0 <= i < k ==> s[i] == ' '
  {
    seq(k, i => ' ')
  }

  /** `s.rjust(width, ' ')`: s padded on the left with spaces to `width` characters. */
  function PadLeft(s: string, width: nat): (r: string)
    ensures |r| == if |s| >= width then |s| else width
    ensures r[|r| - |s|..] == s
    ensures forall i :: 0 <= i < |r| - |s| ==> r[i] == ' '
  {
    if |s| >= width then s else Spaces(width - |s|) + s
  }

  /** `s` without its leading spaces. */
  function DropLeadingSpaces(s: string): (r: string)
    ensures |r| <= |s| && r == s[|s| - |r|..]
    ensures forall i :: 0 <= i < |s| - |r| ==> s[i] == ' '
    ensures r == [] || r[0] != ' '
  {
    if s != [] && s[0] == ' ' then DropLeadingSpaces(s[1..]) else s
  }

  /** A right-justified count reads back as the count. */
  lemma ReadPadded(n: nat, width: nat)
    ensures ParseDecimal(DropLeadingSpaces(PadLeft(ToDecimal(n), width))) == n
  {
    var s := ToDecimal(n);
    var r := PadLeft(s, width);
    DropSpacePrefix(|r| - |s|, s);
    assert r == Spaces(|r| - |s|) + s;
    ParseToDecimal(n);
  }

  lemma {:induction false} DropSpacePrefix(k: nat, s: string)
    requires s == [] || s[0] != ' '
    ensures DropLeadingSpaces(Spaces(k) + s) == s
  {
    if k > 0 {
      assert (Spaces(k) + s)[1..] == Spaces(k - 1) + s;
      DropSpacePrefix(k - 1, s);
    } else {
      assert Spaces(k) + s == s;
    }
  }
}
