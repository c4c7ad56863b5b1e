/** Well-formed UTF-8, the check Rust's `read_line` makes before it appends
    a line to a `String`. A well-formed sequence is one of the byte patterns
    of table 3-7 of the Unicode Standard (section 3.9): no overlong forms,
    no surrogates, nothing above U+10FFFF. */
module Utf8 {
  import opened Bytes

  /** A continuation byte in `lo..hi`. */
  predicate InRange(b: byte, lo: byte, hi: byte) {
    lo <= b <= hi
  }

  predicate Continuation(b: byte) {
    InRange(b, 0x80, 0xBF)
  }

  /** The bounds table 3-7 puts on the byte after a three- or four-byte lead. */
  function SecondLow(lead: byte): byte {
    if lead == 0xE0 then 0xA0 else if lead == 0xF0 then 0x90 else 0x80
  }

  function SecondHigh(lead: byte): byte {
    if lead == 0xED then 0x9F else if lead == 0xF4 then 0x8F else 0xBF
  }

  /** The length of the well-formed sequence `s` starts with, or 0 when it
      does not start with one. */
  function SequenceLength(s: seq<byte>): (r: nat)
    ensures r <= |s| && r <= 4
    ensures (r == 0) == (|s| == 0 || !WellFormedStart(s))
  {
    if |s| == 0 then 0
    else if s[0] <= 0x7F then 1
    else if 0xC2 <= s[0] <= 0xDF then
      if |s| >= 2 && Continuation(s[1]) then 2 else 0
    else if 0xE0 <= s[0] <= 0xEF then
      if |s| >= 3 && InRange(s[1], SecondLow(s[0]), SecondHigh(s[0])) && Continuation(s[2]) then 3 else 0
    else if 0xF0 <= s[0] <= 0xF4 then
      if |s| >= 4 && InRange(s[1], SecondLow(s[0]), SecondHigh(s[0])) && Continuation(s[2]) && Continuation(s[3])
      then 4 else 0
    else 0
  }

  /** Reference statement of table 3-7 for the first sequence of `s`. */
  predicate WellFormedStart(s: seq<byte>)
    requires |s| > 0
  {
    s[0] <= 0x7F
    || (0xC2 <= s[0] <= 0xDF && |s| >= 2 && 0x80 <= s[1] <= 0xBF)
    || (s[0] == 0xE0 && |s| >= 3 && 0xA0 <= s[1] <= 0xBF && 0x80 <= s[2] <= 0xBF)
    || ((0xE1 <= s[0] <= 0xEC || 0xEE <= s[0] <= 0xEF) && |s| >= 3 && 0x80 <= s[1] <= 0xBF && 0x80 <= s[2] <= 0xBF)
    || (s[0] == 0xED && |s| >= 3 && 0x80 <= s[1] <= 0x9F && 0x80 <= s[2] <= 0xBF)
    || (s[0] == 0xF0 && |s| >= 4 && 0x90 <= s[1] <= 0xBF && 0x80 <= s[2] <= 0xBF && 0x80 <= s[3] <= 0xBF)
    || (0xF1 <= s[0] <= 0xF3 && |s| >= 4 && 0x80 <= s[1] <= 0xBF && 0x80 <= s[2] <= 0xBF && 0x80 <= s[3] <= 0xBF)
    || (s[0] == 0xF4 && |s| >= 4 && 0x80 <= s[1] <= 0x8F && 0x80 <= s[2] <= 0xBF && 0x80 <= s[3] <= 0xBF)
  }

  /** `s` is a run of well-formed sequences. */
  predicate ValidUtf8(s: seq<byte>)
    decreases |s|
  {
    |s| == 0 || (SequenceLength(s) > 0 && ValidUtf8(s[SequenceLength(s)..]))
  }

  /** The first sequence is found by looking at its own bytes only. */
  lemma SequenceLengthPrefix(a: seq<byte>, b: seq<byte>)
    requires SequenceLength(a) > 0
    ensures SequenceLength(a + b) == SequenceLength(a)
  {
    var n := SequenceLength(a);
    assert forall i :: 0 <= i < n ==> (a + b)[i] == a[i];
  }

  /** Two runs of well-formed sequences make one. */
  lemma {:induction false} ValidAppend(a: seq<byte>, b: seq<byte>)
    requires ValidUtf8(a) && ValidUtf8(b)
    ensures ValidUtf8(a + b)
    decreases |a|
  {
    if |a| > 0 {
      var n := SequenceLength(a);
      SequenceLengthPrefix(a, b);
      ValidAppend(a[n..], b);
      assert (a + b)[n..] == a[n..] + b;
      assert ValidUtf8((a + b)[SequenceLength(a + b)..]);
    } else {
      assert a + b == b;
    }
  }

  /** ASCII text is well-formed UTF-8. */
  lemma {:induction false} AsciiValid(s: seq<byte>)
    requires forall i :: 0 <= i < |s| ==> s[i] <= 0x7F
    ensures ValidUtf8(s)
    decreases |s|
  {
    if |s| > 0 {
      AsciiValid(s[1..]);
    }
  }

  /** The UTF-8 encoding of a Unicode scalar value (any code point up to
      U+10FFFF that is not a surrogate). */
  function EncodeScalar(cp: nat): (r: seq<byte>)
    requires cp <= 0x10FFFF && !(0xD800 <= cp <= 0xDFFF)
    ensures 1 <= |r| <= 4
  {
    if cp < 0x80 then [cp]
    else if cp < 0x800 then [0xC0 + cp / 64, 0x80 + cp % 64]
    else if cp < 0x10000 then [0xE0 + cp / 4096, 0x80 + cp / 64 % 64, 0x80 + cp % 64]
    else [0xF0 + cp / 262144, 0x80 + cp / 4096 % 64, 0x80 + cp / 64 % 64, 0x80 + cp % 64]
  }

  /** Every scalar value's encoding is one well-formed sequence: the check
      accepts all the text UTF-8 can carry. */
  lemma EncodedIsValid(cp: nat)
    requires cp <= 0x10FFFF && !(0xD800 <= cp <= 0xDFFF)
    ensures SequenceLength(EncodeScalar(cp)) == |EncodeScalar(cp)|
    ensures ValidUtf8(EncodeScalar(cp))
  {
    var r := EncodeScalar(cp);
    if 0x800 <= cp < 0x10000 {
      ThreeByteSecond(cp);
    } else if 0x10000 <= cp {
      FourByteSecond(cp);
    }
    assert r[|r|..] == [];
  }

  lemma ThreeByteSecond(cp: nat)
    requires 0x800 <= cp < 0x10000 && !(0xD800 <= cp <= 0xDFFF)
    ensures var lead := 0xE0 + cp / 4096;
      0xE0 <= lead <= 0xEF && SecondLow(lead) <= 0x80 + cp / 64 % 64 <= SecondHigh(lead)
  {
    var lead := 0xE0 + cp / 4096;
    if lead == 0xE0 {
      assert cp < 4096;
      assert cp / 64 >= 32;
    } else if lead == 0xED {
      assert 0xD000 <= cp < 0xD800;
      assert cp / 64 % 64 == cp / 64 - 0x340;
    }
  }

  lemma FourByteSecond(cp: nat)
    requires 0x10000 <= cp <= 0x10FFFF
    ensures var lead := 0xF0 + cp / 262144;
      0xF0 <= lead <= 0xF4 && SecondLow(lead) <= 0x80 + cp / 4096 % 64 <= SecondHigh(lead)
  {
    var lead := 0xF0 + cp / 262144;
    if lead == 0xF0 {
      assert cp / 4096 >= 16;
      assert cp / 4096 % 64 == cp / 4096;
    } else if lead == 0xF4 {
      assert 0x100000 <= cp;
      assert cp / 4096 % 64 == cp / 4096 - 0x100;
    }
  }

  /** What the check rejects: a continuation byte with no lead, an overlong
      form, an encoded surrogate and a sequence cut short. */
  lemma Rejected()
    ensures !ValidUtf8([0x80])
    ensures !ValidUtf8([0xC0, 0x80])
    ensures !ValidUtf8([0xED, 0xA0, 0x80])
    ensures !ValidUtf8([0xE2, 0x82])
  {
  }
}
