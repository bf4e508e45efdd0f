/**
 * The byte count of `wc`: `text.bytesize` (main_wc.rb:96), the length of
 * the text's UTF-8 encoding.
 *
 * The text is a sequence of Unicode scalar values; a decoder is given
 * beside the encoder so that the encoding the count measures is pinned
 * down by a round trip.
 */
module Utf8 {

  newtype byte = x: int | 0 <= x < 0x100

  predicate IsAscii(c: char) {
    c as int < 0x80
  }

  /**
   * The number of bytes UTF-8 uses for a scalar value, by the table of
   * section 3 of RFC 3629.
   */
  function EncodedLength(cp: int): nat {
    if cp < 0x80 then 1 else if cp < 0x800 then 2 else if cp < 0x1_0000 then 3 else 4
  }

  /** The UTF-8 bytes of one scalar value. */
  function EncodeChar(c: char): (bs: seq<byte>)
    ensures |bs| == EncodedLength(c as int)
    ensures 1 <= |bs| <= 4
    ensures |bs| == 1 <==> IsAscii(c)
  {
    var cp := c as int;
    if cp < 0x80 then
      [cp as byte]
    else if cp < 0x800 then
      [(0xC0 + cp / 0x40) as byte, (0x80 + cp % 0x40) as byte]
    else if cp < 0x1_0000 then
      [(0xE0 + cp / 0x1000) as byte, (0x80 + cp / 0x40 % 0x40) as byte, (0x80 + cp % 0x40) as byte]
    else
      [(0xF0 + cp / 0x4_0000) as byte, (0x80 + cp / 0x1000 % 0x40) as byte,
       (0x80 + cp / 0x40 % 0x40) as byte, (0x80 + cp % 0x40) as byte]
  }

  /** The UTF-8 bytes of a text. */
  function Encode(s: string): (bs: seq<byte>)
    ensures |s| <= |bs| <= 4 * |s|
    ensures |bs| == |s| <==> forall i :: 0 <= i < |s| ==> IsAscii(s[i])
  {
    if s == [] then []
    else
      var rest := Encode(s[1..]);
      assert forall i :: 1 <= i < |s| ==> s[1..][i - 1] == s[i];
      EncodeChar(s[0]) + rest
  }

  /** `text.bytesize`. */
  function ByteSize(s: string): nat {
    |Encode(s)|
  }

  /** The length of the sequence a lead byte opens; 0 for a byte that cannot lead one. */
  function SequenceLength(lead: byte): nat {
    if lead < 0x80 then 1
    else if lead < 0xC0 then 0
    else if lead < 0xE0 then 2
    else if lead < 0xF0 then 3
    else if lead < 0xF8 then 4
    else 0
  }

  /** The scalar value of one complete sequence. */
  function DecodeSequence(bs: seq<byte>): int
    requires 1 <= |bs| <= 4
  {
    if |bs| == 1 then bs[0] as int
    else if |bs| == 2 then (bs[0] as int - 0xC0) * 0x40 + (bs[1] as int - 0x80)
    else if |bs| == 3 then
      (bs[0] as int - 0xE0) * 0x1000 + (bs[1] as int - 0x80) * 0x40 + (bs[2] as int - 0x80)
    else
      (bs[0] as int - 0xF0) * 0x4_0000 + (bs[1] as int - 0x80) * 0x1000
      + (bs[2] as int - 0x80) * 0x40 + (bs[3] as int - 0x80)
  }

  predicate IsContinuation(b: byte) {
    0x80 <= b < 0xC0
  }

  /** The least value a sequence of n bytes may carry; a smaller one is an overlong form. */
  function MinValue(n: nat): int {
    if n <= 1 then 0 else if n == 2 then 0x80 else if n == 3 then 0x800 else 0x1_0000
  }

  /** Not a surrogate and at most U+10FFFF. */
  predicate IsScalarValue(v: int) {
    0 <= v < 0xD800 || 0xE000 <= v < 0x11_0000
  }

  /**
   * A well-formed sequence in the sense of section 4 of RFC 3629: a lead
   * byte announcing its length, continuation bytes, no overlong form, and
   * a scalar value.
   */
  predicate WellFormed(bs: seq<byte>)
    requires 1 <= |bs| <= 4
  {
    && SequenceLength(bs[0]) == |bs|
    && (forall i :: 1 <= i < |bs| ==> IsContinuation(bs[i]))
    && MinValue(|bs|) <= DecodeSequence(bs)
    && IsScalarValue(DecodeSequence(bs))
  }

  datatype Decoded = Malformed | Scalars(values: seq<int>)

  /** Decodes a byte string into scalar values, sequence by sequence, refusing ill-formed ones. */
  function Decode(bs: seq<byte>): Decoded
    decreases |bs|
  {
    if bs == [] then Scalars([])
    else
      var n := SequenceLength(bs[0]);
      if n == 0 || n > |bs| || !WellFormed(bs[..n]) then Malformed
      else
        match Decode(bs[n..])
        case Malformed => Malformed
        case Scalars(rest) => Scalars([DecodeSequence(bs[..n])] + rest)
  }

  function ScalarValues(s: string): seq<int> {
    seq(|s|, i requires 0 <= i < |s| => s[i] as int)
  }

  /** One scalar value's bytes form a well-formed sequence that decodes back to it. */
  lemma DecodeEncodeChar(c: char)
    ensures WellFormed(EncodeChar(c))
    ensures DecodeSequence(EncodeChar(c)) == c as int
  {
    var cp := c as int;
    if 0x80 <= cp < 0x800 {
      DecodeEncodeTwo(c);
    } else if 0x800 <= cp < 0x1_0000 {
      DecodeEncodeThree(c);
    } else if 0x1_0000 <= cp {
      DecodeEncodeFour(c);
    }
  }

  lemma DecodeEncodeTwo(c: char)
    requires 0x80 <= c as int < 0x800
    ensures WellFormed(EncodeChar(c)) && DecodeSequence(EncodeChar(c)) == c as int
  {
    var cp := c as int;
    assert cp == cp / 0x40 * 0x40 + cp % 0x40;
  }

  lemma DecodeEncodeThree(c: char)
    requires 0x800 <= c as int < 0x1_0000
    ensures WellFormed(EncodeChar(c)) && DecodeSequence(EncodeChar(c)) == c as int
  {
    SplitSixBits(c as int);
  }

  lemma DecodeEncodeFour(c: char)
    requires 0x1_0000 <= c as int
    ensures WellFormed(EncodeChar(c)) && DecodeSequence(EncodeChar(c)) == c as int
  {
    var cp := c as int;
    SplitSixBits(cp);
    SplitSixBits(cp / 0x40);
    assert cp / 0x40 / 0x40 / 0x40 == cp / 0x4_0000;
  }

  /** Taking six more bits off a value. */
  lemma SplitSixBits(x: int)
    requires 0 <= x
    ensures x == x / 0x1000 * 0x1000 + x / 0x40 % 0x40 * 0x40 + x % 0x40
    ensures x / 0x40 / 0x40 == x / 0x1000
  {
    var q, r := x / 0x40, x % 0x40;
    var q2, r2 := q / 0x40, q % 0x40;
    assert x == q2 * 0x1000 + (r2 * 0x40 + r);
    QuotientBy4096(x, q2, r2 * 0x40 + r);
  }

  lemma QuotientBy4096(x: int, q: int, r: int)
    requires 0 <= r < 0x1000 && x == q * 0x1000 + r
    ensures x / 0x1000 == q
  {
  }

  /** Decoding the encoding of a text gives back its scalar values. */
  lemma {:induction false} DecodeEncode(s: string)
    ensures Decode(Encode(s)) == Scalars(ScalarValues(s))
  {
    if s != [] {
      var head := EncodeChar(s[0]);
      assert Encode(s) == head + Encode(s[1..]);
      DecodeEncodeChar(s[0]);
      DecodeFirst(head, Encode(s[1..]));
      DecodeEncode(s[1..]);
      assert ScalarValues(s) == [s[0] as int] + ScalarValues(s[1..]);
    }
  }

  /** A well-formed first sequence is decoded, then the rest. */
  lemma DecodeFirst(head: seq<byte>, rest: seq<byte>)
    requires 1 <= |head| <= 4 && WellFormed(head)
    ensures Decode(head + rest)
      == match Decode(rest)
         case Malformed => Malformed
         case Scalars(vs) => Scalars([DecodeSequence(head)] + vs)
  {
    var bs := head + rest;
    assert bs[0] == head[0];
    assert bs[..|head|] == head;
    assert bs[|head|..] == rest;
  }
  /** A well-formed sequence is the encoding of the value it carries. */
  lemma EncodeDecodeSequence(bs: seq<byte>)
    requires 1 <= |bs| <= 4 && WellFormed(bs)
    ensures EncodeChar(DecodeSequence(bs) as char) == bs
  {
    if |bs| == 2 {
      EncodeDecodeTwo(bs);
    } else if |bs| == 3 {
      EncodeDecodeThree(bs);
    } else if |bs| == 4 {
      EncodeDecodeFour(bs);
    }
  }

  lemma EncodeDecodeTwo(bs: seq<byte>)
    requires |bs| == 2 && WellFormed(bs)
    ensures EncodeChar(DecodeSequence(bs) as char) == bs
  {
    var v := DecodeSequence(bs);
    var a, b := bs[0] as int - 0xC0, bs[1] as int - 0x80;
    assert v == a * 0x40 + b && 0 <= b < 0x40;
    assert v / 0x40 == a && v % 0x40 == b;
  }

  lemma EncodeDecodeThree(bs: seq<byte>)
    requires |bs| == 3 && WellFormed(bs)
    ensures EncodeChar(DecodeSequence(bs) as char) == bs
  {
    var v := DecodeSequence(bs);
    var a, b, c := bs[0] as int - 0xE0, bs[1] as int - 0x80, bs[2] as int - 0x80;
    assert v == a * 0x1000 + b * 0x40 + c;
    SixBitDigits(a, b, c);
  }

  lemma EncodeDecodeFour(bs: seq<byte>)
    requires |bs| == 4 && WellFormed(bs)
    ensures EncodeChar(DecodeSequence(bs) as char) == bs
  {
    var v := DecodeSequence(bs);
    var a, b, c, d := bs[0] as int - 0xF0, bs[1] as int - 0x80, bs[2] as int - 0x80, bs[3] as int - 0x80;
    assert v == (a * 0x40 + b) * 0x1000 + c * 0x40 + d;
    SixBitDigits(a * 0x40 + b, c, d);
    assert (a * 0x40 + b) / 0x40 == a && (a * 0x40 + b) % 0x40 == b;
    assert v / 0x4_0000 == (a * 0x40 + b) / 0x40;
  }

  /** Reading the six-bit digits of a value back off it. */
  lemma SixBitDigits(a: int, b: int, c: int)
    requires 0 <= a && 0 <= b < 0x40 && 0 <= c < 0x40
    ensures var v := a * 0x1000 + b * 0x40 + c;
      && v / 0x1000 == a && v / 0x40 % 0x40 == b && v % 0x40 == c && v / 0x40 == a * 0x40 + b
  {
    var v := a * 0x1000 + b * 0x40 + c;
    assert v == (a * 0x40 + b) * 0x40 + c;
    assert v / 0x40 == a * 0x40 + b;
    assert (a * 0x40 + b) / 0x40 == a;
    SplitSixBits(v);
  }

  /**
   * The encoding is the only byte string that decodes to the text, so every
   * well-formed UTF-8 form of a text is `ByteSize` bytes long.
   */
  lemma {:induction false} OnlyEncoding(s: string, bs: seq<byte>)
    requires Decode(bs) == Scalars(ScalarValues(s))
    ensures bs == Encode(s)
  {
    if bs == [] {
      assert |ScalarValues(s)| == 0;
    } else {
      var n := DecodeStep(s, bs);
      OnlyEncoding(s[1..], bs[n..]);
      JoinEncodings(s, bs, n);
    }
  }

  lemma JoinEncodings(s: string, bs: seq<byte>, n: nat)
    requires s != [] && n <= |bs|
    requires bs[..n] == EncodeChar(s[0]) && bs[n..] == Encode(s[1..])
    ensures bs == Encode(s)
  {
    assert bs == bs[..n] + bs[n..];
  }

  /** One step of the decoder: the first sequence is the encoding of the text's first character. */
  lemma DecodeStep(s: string, bs: seq<byte>) returns (n: nat)
    requires bs != [] && Decode(bs) == Scalars(ScalarValues(s))
    ensures s != [] && n <= |bs|
    ensures bs[..n] == EncodeChar(s[0]) && Decode(bs[n..]) == Scalars(ScalarValues(s[1..]))
  {
    n := SequenceLength(bs[0]);
    DecodeHead(bs, ScalarValues(s));
    ScalarValuesCons(s);
    HeadIsEncoding(bs[..n], s[0]);
  }

  /** A successful decoding starts with a well-formed sequence carrying its first value. */
  lemma DecodeHead(bs: seq<byte>, vs: seq<int>)
    requires bs != [] && Decode(bs) == Scalars(vs)
    ensures var n := SequenceLength(bs[0]);
      && 1 <= n <= |bs| && n <= 4 && WellFormed(bs[..n])
      && vs != [] && vs[0] == DecodeSequence(bs[..n]) && Decode(bs[n..]) == Scalars(vs[1..])
  {
    var n := SequenceLength(bs[0]);
    var rest := Decode(bs[n..]);
    assert rest.Scalars? && vs == [DecodeSequence(bs[..n])] + rest.values;
    assert vs[1..] == rest.values;
  }

  lemma ScalarValuesCons(s: string)
    requires |ScalarValues(s)| > 0
    ensures s != []
    ensures ScalarValues(s)[0] == s[0] as int && ScalarValues(s)[1..] == ScalarValues(s[1..])
  {
  }

  lemma HeadIsEncoding(head: seq<byte>, c: char)
    requires 1 <= |head| <= 4 && WellFormed(head) && DecodeSequence(head) == c as int
    ensures head == EncodeChar(c)
  {
    EncodeDecodeSequence(head);
  }

  /** An overlong form and a lead byte without its continuation byte are refused. */
  lemma IllFormedRefused(overlong: seq<byte>, truncated: seq<byte>)
    requires overlong == [0xE0, 0x84, 0x80] && truncated == [0xC2, 0x41]
    ensures Decode(overlong) == Malformed && Decode(truncated) == Malformed
  {
    assert overlong[..3] == overlong && DecodeSequence(overlong) == 0x100;
    assert truncated[..2] == truncated && !IsContinuation(truncated[1]);
  }
}
