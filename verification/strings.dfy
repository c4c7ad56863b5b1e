/** The `Strings` utility class: the blank check, concatenation, and the
    `cut` family that splits a text around the first occurrence of a
    separator. The cut operations are written for any element type, so
    the same definitions serve Java strings (characters) and the wire
    lines the clients parse (bytes). */
module Strings {
  import opened Bytes
  import opened Wrappers
  import opened Failures
  import opened Numerals
  import opened Integers
  import opened StringBuilders

  /** `Character.isWhitespace`: the Unicode space, line and paragraph
      separators except the no-break spaces (U+00A0, U+2007, U+202F), and
      the controls U+0009-U+000D and U+001C-U+001F. */
  predicate IsWhitespace(c: char) {
    var n := c as int;
    (0x09 <= n <= 0x0D) || (0x1C <= n <= 0x20) || n == 0x1680
    || (0x2000 <= n <= 0x2006) || (0x2008 <= n <= 0x200A)
    || n == 0x2028 || n == 0x2029 || n == 0x205F || n == 0x3000
  }

  /** `String.isBlank`: scans for a character that is not whitespace. */
  predicate IsBlank(s: string)
    ensures IsBlank(s) <==> forall i :: 0 <= i < |s| ==> IsWhitespace(s[i])
  {
    |s| == 0 || (IsWhitespace(s[0]) && IsBlank(s[1..]))
  }

  /** `requireNotBlank`. */
  function RequireNotBlank(s: string): (r: Result<string, Failure>)
    ensures r.Ok? <==> exists i :: 0 <= i < |s| && !IsWhitespace(s[i])
    ensures r.Ok? ==> r.value == s
    ensures r.Err? ==> r.error == IllegalArgument("String is not allowed to be blank.")
  {
    if IsBlank(s) then Err(IllegalArgument("String is not allowed to be blank.")) else Ok(s)
  }

  /** `concatenate`: a fresh builder, `appendAll`, `toString`. */
  method Concatenate(parts: seq<Option<string>>) returns (r: string)
    ensures r == Joined(parts)
  {
    var b := AppendAll(Builder([]), parts);
    r := b.content;
  }

  // ---------------------------------------------------------------------
  // Searching

  function Max0(n: int): nat {
    if n < 0 then 0 else n
  }

  /** `indexOf(ch, fromIndex)`: the first position at or after `fromIndex`
      (a negative one counts as 0) holding `x`, or -1. */
  function IndexOf<T(==)>(text: seq<T>, x: T, fromIndex: int): (r: int)
    ensures -1 <= r < |text|
    ensures r == -1 <==> forall j :: Max0(fromIndex) <= j < |text| ==> text[j] != x
    ensures r >= 0 ==> Max0(fromIndex) <= r && text[r] == x
    ensures r >= 0 ==> forall j :: Max0(fromIndex) <= j < r ==> text[j] != x
    decreases |text| - Max0(fromIndex)
  {
    var i := Max0(fromIndex);
    if i >= |text| then -1
    else if text[i] == x then i
    else IndexOf(text, x, i + 1)
  }

  /** Whether `sep` occurs in `text` starting at position `i`. */
  predicate MatchesAt<T(==)>(text: seq<T>, sep: seq<T>, i: nat) {
    i + |sep| <= |text| && text[i..i + |sep|] == sep
  }

  /** Where `indexOf(String, fromIndex)` starts looking: `fromIndex` clamped to 0..|text|. */
  function SearchStart(length: nat, fromIndex: int): (r: nat)
    ensures r <= length
    ensures 0 <= fromIndex <= length ==> r == fromIndex
  {
    if fromIndex < 0 then 0 else if fromIndex > length then length else fromIndex
  }

  /** `indexOf(str, fromIndex)`: the first position at or after the clamped
      start where `sep` occurs, or -1. The empty separator occurs
      everywhere, including at the very end. */
  function IndexOfSeq<T(==)>(text: seq<T>, sep: seq<T>, fromIndex: int): (r: int)
    ensures -1 <= r <= |text|
    ensures r == -1 <==> forall j :: SearchStart(|text|, fromIndex) <= j <= |text| ==> !MatchesAt(text, sep, j)
    ensures r >= 0 ==> SearchStart(|text|, fromIndex) <= r && MatchesAt(text, sep, r)
    ensures r >= 0 ==> forall j :: SearchStart(|text|, fromIndex) <= j < r ==> !MatchesAt(text, sep, j)
    decreases |text| - SearchStart(|text|, fromIndex)
  {
    var i := SearchStart(|text|, fromIndex);
    if MatchesAt(text, sep, i) then i
    else if i == |text| then -1
    else IndexOfSeq(text, sep, i + 1)
  }

  // ---------------------------------------------------------------------
  // Cutting

  /** The two parts of a cut; `None` in the second place stands for `null`. */
  type Parts<T> = (seq<T>, Option<seq<T>>)

  /** `cutAt(idx, text)`: the parts before and after position `idx`, the
      element at `idx` itself left out; `idx` must lie in 0..|text|-1. */
  function CutAt<T>(idx: int32, text: seq<T>): (r: Result<Parts<T>, Failure>)
    requires |text| <= INT_MAX
    ensures r.Ok? <==> 0 <= idx < |text|
    ensures r.Err? ==> r.error == IllegalArgument("Illegal value: " + IntToString(idx))
    ensures r.Ok? ==> r.value.1.Some? && |r.value.0| == idx
    ensures r.Ok? ==> r.value.0 + [text[idx]] + r.value.1.value == text
    ensures r.Ok? ==> |r.value.0| + |r.value.1.value| == |text| - 1
  {
    var _ :- RequireInRange(0, |text| - 1, idx);
    assert text == text[..idx] + [text[idx]] + text[idx + 1..];
    Ok((text[..idx], Some(text[idx + 1..])))
  }

  /** `cut(text, separator)` for a single character. */
  function Cut<T(==)>(text: seq<T>, separator: T): (r: Result<Parts<T>, Failure>)
    requires |text| <= INT_MAX
    ensures r.Ok?
    ensures separator !in text <==> r.value.1.None?
    ensures r.value.1.None? ==> r.value.0 == text
    ensures r.value.1.Some? ==> r.value.0 + [separator] + r.value.1.value == text && separator !in r.value.0
  {
    var idx := IndexOf(text, separator, 0);
    if idx == -1 then Ok((text, None)) else CutAt(idx, text)
  }

  /** `cut(text, separator, fromIndex)`: the search starts at `fromIndex`,
      but the first part still runs from the start of the text. */
  function CutFrom<T(==)>(text: seq<T>, separator: T, fromIndex: int32): (r: Result<Parts<T>, Failure>)
    requires |text| <= INT_MAX
    ensures r.Ok?
    ensures r.value.1.None? <==> forall j :: Max0(fromIndex) <= j < |text| ==> text[j] != separator
    ensures r.value.1.None? ==> r.value.0 == text
    ensures r.value.1.Some? ==> r.value.0 + [separator] + r.value.1.value == text
    ensures r.value.1.Some? ==>
      Max0(fromIndex) <= |r.value.0| && forall j :: Max0(fromIndex) <= j < |r.value.0| ==> r.value.0[j] != separator
  {
    var idx := IndexOf(text, separator, fromIndex);
    if idx == -1 then Ok((text, None)) else CutAt(idx, text)
  }

  /** `cut(text, separator)` for a separator string, as written: it cuts at
      the first occurrence but drops only one element there. An empty
      separator on an empty text is found at 0, which `cutAt` rejects. */
  function CutStr<T(==)>(text: seq<T>, sep: seq<T>): (r: Result<Parts<T>, Failure>)
    requires |text| <= INT_MAX
    ensures r.Err? <==> |text| == 0 && |sep| == 0
    ensures r.Ok? && r.value.1.None? <==> forall j :: 0 <= j <= |text| ==> !MatchesAt(text, sep, j)
    ensures r.Ok? && r.value.1.None? ==> r.value.0 == text
    ensures r.Ok? && r.value.1.Some? ==>
      var p := r.value.0;
      |p| < |text| && MatchesAt(text, sep, |p|) && p + [text[|p|]] + r.value.1.value == text
      && forall j :: 0 <= j < |p| ==> !MatchesAt(text, sep, j)
  {
    var idx := IndexOfSeq(text, sep, 0);
    if idx == -1 then Ok((text, None)) else CutAt(idx, text)
  }

  /** `cut(text, separator, fromIndex)` for a separator string, as written. */
  function CutStrFrom<T(==)>(text: seq<T>, sep: seq<T>, fromIndex: int32): (r: Result<Parts<T>, Failure>)
    requires |text| <= INT_MAX
    ensures r.Err? <==> |sep| == 0 && SearchStart(|text|, fromIndex) == |text|
    ensures r.Ok? && r.value.1.None? <==>
      forall j :: SearchStart(|text|, fromIndex) <= j <= |text| ==> !MatchesAt(text, sep, j)
    ensures r.Ok? && r.value.1.None? ==> r.value.0 == text
    ensures r.Ok? && r.value.1.Some? ==>
      var p := r.value.0;
      SearchStart(|text|, fromIndex) <= |p| < |text| && MatchesAt(text, sep, |p|)
      && p + [text[|p|]] + r.value.1.value == text
  {
    var idx := IndexOfSeq(text, sep, fromIndex);
    if idx == -1 then Ok((text, None)) else CutAt(idx, text)
  }

  /** The cut the documentation describes: the parts before and after the
      first occurrence of the whole separator. */
  function CutSep<T(==)>(text: seq<T>, sep: seq<T>): (r: Parts<T>)
    ensures r.1.None? <==> forall j :: 0 <= j <= |text| ==> !MatchesAt(text, sep, j)
    ensures r.1.None? ==> r.0 == text
    ensures r.1.Some? ==> r.0 + sep + r.1.value == text
    ensures r.1.Some? ==> forall j :: 0 <= j < |r.0| ==> !MatchesAt(text, sep, j)
  {
    var idx := IndexOfSeq(text, sep, 0);
    if idx == -1 then (text, None)
    else
      assert text == text[..idx] + sep + text[idx + |sep|..];
      (text[..idx], Some(text[idx + |sep|..]))
  }

  // ---------------------------------------------------------------------
  // Properties

  /** Searching for a one-element sequence is searching for that element. */
  lemma {:induction false} IndexOfSingle<T>(text: seq<T>, x: T, i: nat)
    requires i <= |text|
    ensures IndexOfSeq(text, [x], i) == IndexOf(text, x, i)
    decreases |text| - i
  {
    if i < |text| {
      assert MatchesAt(text, [x], i) <==> text[i] == x by {
        assert text[i..i + 1] == [text[i]];
      }
      if text[i] != x {
        IndexOfSingle(text, x, i + 1);
      }
    }
  }

  /** A single-character separator string cuts exactly like the character,
      and there the as-written cut and the documented one agree. */
  lemma OneCharSeparator<T>(text: seq<T>, separator: T)
    requires |text| <= INT_MAX
    ensures CutStr(text, [separator]) == Cut(text, separator)
    ensures CutSep(text, [separator]) == Cut(text, separator).value
  {
    IndexOfSingle(text, separator, 0);
  }

  /** As written, a longer separator leaves all but its first element at the
      front of the second part: "a::b" cut at "::" gives "a" and ":b". */
  lemma LongSeparatorLeaks()
    ensures CutStr("a::b", "::") == Ok(("a", Some(":b")))
    ensures CutSep("a::b", "::") == ("a", Some("b"))
  {
    var text, sep := "a::b", "::";
    assert !MatchesAt(text, sep, 0) by {
      assert text[0..2][0] == 'a';
    }
    assert MatchesAt(text, sep, 1) by {
      assert text[1..3] == sep;
    }
    assert IndexOfSeq(text, sep, 0) == 1;
    assert text[..1] == "a" && text[2..] == ":b" && text[3..] == "b";
  }

  /** As written, the empty separator drops the first element of a text and
      fails on the empty text; the documented cut splits off nothing. */
  lemma EmptySeparator<T>(text: seq<T>)
    requires |text| <= INT_MAX
    ensures |text| > 0 ==> CutStr(text, []) == Ok(([], Some(text[1..])))
    ensures |text| == 0 ==> CutStr(text, []).Err?
    ensures CutSep(text, []) == ([], Some(text))
  {
    assert MatchesAt(text, [], 0);
    assert IndexOfSeq(text, [], 0) == 0;
    assert text[0..] == text;
  }
}
