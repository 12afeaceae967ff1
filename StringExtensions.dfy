/**
  The ordinal members of `StringExtensions` (J2N/Text/StringExtensions.cs):
  comparison, containment, content equality, region matching, code-point
  search, prefix test and sub-sequence extraction on a `string`.

  Index arguments are unbounded integers here. Every guard of the modelled
  code is written so that it cannot overflow for `int` arguments, so the
  results agree with the C# code on every 32-bit argument.
*/
module StringExtensions {
  import opened Wrappers
  import opened TextTypes
  import opened Ordinal
  import opened Utf16

  function Min(a: int, b: int): int { if a <= b then a else b }
  function Max(a: int, b: int): int { if a <= b then b else a }

  // ---------------------------------------------------------------------
  // Runtime members the extensions call (their source is not part of this
  // model; these are their documented contracts).

  /** `String.IndexOf(char, int)`: the first index at or after `startIndex`
      holding `c`; a start outside `0..Length` throws. */
  function StringIndexOfChar(text: Text, c: Char16, startIndex: int): (r: Result<int, Error>)
    ensures r.Failure? <==> !(0 <= startIndex <= |text|)
    ensures r.Failure? ==> r.error == ArgumentOutOfRange("startIndex")
    ensures r.Success? ==> r.value == FirstOccurrence(text, [c], startIndex)
  {
    if 0 <= startIndex <= |text| then Success(FirstOccurrence(text, [c], startIndex))
    else Failure(ArgumentOutOfRange("startIndex"))
  }

  /** `String.LastIndexOf(char, int)`: -1 on an empty string; otherwise a
      start outside `0..Length-1` throws, and else the last index at or
      before `startIndex` holding `c`. */
  function StringLastIndexOfChar(text: Text, c: Char16, startIndex: int): (r: Result<int, Error>)
    ensures r.Failure? <==> text != [] && !(0 <= startIndex < |text|)
    ensures r.Failure? ==> r.error == ArgumentOutOfRange("startIndex")
    ensures r.Success? ==> r.value == LastOccurrence(text, [c], startIndex)
  {
    if text == [] then Success(-1)
    else if 0 <= startIndex < |text| then Success(LastOccurrence(text, [c], startIndex))
    else Failure(ArgumentOutOfRange("startIndex"))
  }

  // ---------------------------------------------------------------------
  // CompareToOrdinal

  /** The loop shared by the `CompareToOrdinal` overloads: the first
      non-zero difference of code units in the common prefix, else the
      difference of the lengths. */
  method CompareCodeUnits(a: Text, b: Text) returns (r: int)
    ensures r == Compare(a, b)
  {
    var length := Min(|a|, |b|);
    var i := 0;
    while i < length
      invariant 0 <= i <= length
      invariant a[..i] == b[..i]
    {
      var result := a[i] as int - b[i] as int;
      if result != 0 {
        CommonPrefixLengthIs(a, b, i);
        return result;
      }
      assert a[..i + 1] == a[..i] + [a[i]];
      assert b[..i + 1] == b[..i] + [b[i]];
      i := i + 1;
    }
    CommonPrefixLengthIs(a, b, i);
    return |a| - |b|;
  }

  /** `CompareToOrdinal(string, char[])` and `(string, StringBuilder)`:
      null sorts first, two nulls tie, and otherwise the result is the
      difference of the first differing code units, or else of the
      lengths, so it is 0 exactly when the contents are equal. The
      `(string, string)` overload defers to the runtime's
      `string.CompareOrdinal`, which promises only a result of the same
      sign, 0 exactly on equal text. */
  method CompareToOrdinal(str: Option<Text>, value: Option<Text>) returns (r: int)
    ensures r == CompareNullable(str, value)
    ensures r == 0 <==> str == value
  {
    if str.None? {
      return if value.None? then 0 else -1;
    }
    if value.None? {
      return 1;
    }
    r := CompareCodeUnits(str.value, value.value);
  }

  /** `CompareToOrdinal(string, ICharSequence)`: a sequence without a value
      is treated like null. */
  method CompareToOrdinalSequence(str: Option<Text>, value: CharSequence) returns (r: int)
    ensures r == CompareNullable(str, value.AsText())
    ensures r == 0 <==> str == value.AsText()
  {
    if str.None? {
      return if !value.HasValue() then 0 else -1;
    }
    if !value.HasValue() {
      return 1;
    }
    r := CompareCodeUnits(str.value, value.chars);
  }

  // ---------------------------------------------------------------------
  // Contains

  /** `Contains(string, char)`: whether `value` occurs in `input`. */
  method Contains(input: Option<Text>, value: Char16) returns (r: Result<bool, Error>)
    ensures input.None? ==> r == Failure(ArgumentNull("input"))
    ensures input.Some? ==> r == Success(value in input.value)
  {
    if input.None? {
      return Failure(ArgumentNull("input"));
    }
    var s := input.value;
    var i := 0;
    while i < |s|
      invariant 0 <= i <= |s|
      invariant value !in s[..i]
    {
      if s[i] == value {
        return Success(true);
      }
      assert s[..i + 1] == s[..i] + [s[i]];
      i := i + 1;
    }
    assert s[..i] == s;
    return Success(false);
  }

  // ---------------------------------------------------------------------
  // RegionMatches (ordinal comparison)

  /** Both ranges lie inside their texts and hold the same code units; an
      empty or negative `length` matches once the starts are in range. */
  predicate RegionsMatch(text: Text, thisStartIndex: int, other: Text, otherStartIndex: int, length: int) {
    && 0 <= otherStartIndex && length <= |other| - otherStartIndex
    && 0 <= thisStartIndex && length <= |text| - thisStartIndex
    && (length <= 0
        || text[thisStartIndex..thisStartIndex + length] == other[otherStartIndex..otherStartIndex + length])
  }

  /** `RegionMatches` with `StringComparison.Ordinal`, for a `char[]`,
      `StringBuilder` or `string` argument. */
  method RegionMatches(text: Option<Text>, thisStartIndex: int, other: Option<Text>, otherStartIndex: int, length: int)
    returns (r: Result<bool, Error>)
    ensures text.None? ==> r == Failure(ArgumentNull("text"))
    ensures text.Some? && other.None? ==> r == Failure(ArgumentNull("other"))
    ensures text.Some? && other.Some? ==>
      r == Success(RegionsMatch(text.value, thisStartIndex, other.value, otherStartIndex, length))
  {
    if text.None? {
      return Failure(ArgumentNull("text"));
    }
    if other.None? {
      return Failure(ArgumentNull("other"));
    }
    var t, o := text.value, other.value;
    if |o| - otherStartIndex < length || otherStartIndex < 0 {
      return Success(false);
    }
    if thisStartIndex < 0 || |t| - thisStartIndex < length {
      return Success(false);
    }
    if length <= 0 {
      return Success(true);
    }
    var i := 0;
    while i < length
      invariant 0 <= i <= length
      invariant t[thisStartIndex..thisStartIndex + i] == o[otherStartIndex..otherStartIndex + i]
    {
      if t[thisStartIndex + i] != o[otherStartIndex + i] {
        assert t[thisStartIndex..thisStartIndex + length][i] != o[otherStartIndex..otherStartIndex + length][i];
        return Success(false);
      }
      assert t[thisStartIndex..thisStartIndex + i + 1] == t[thisStartIndex..thisStartIndex + i] + [t[thisStartIndex + i]];
      assert o[otherStartIndex..otherStartIndex + i + 1] == o[otherStartIndex..otherStartIndex + i] + [o[otherStartIndex + i]];
      i := i + 1;
    }
    return Success(true);
  }

  /** `RegionMatches` with `StringComparison.Ordinal` for an
      `ICharSequence` argument: a valueless sequence has length 0. */
  method RegionMatchesSequence(text: Option<Text>, thisStartIndex: int, other: CharSequence, otherStartIndex: int, length: int)
    returns (r: Result<bool, Error>)
    ensures text.None? ==> r == Failure(ArgumentNull("text"))
    ensures text.Some? && other.NullSequence? ==> r == Failure(ArgumentNull("other"))
    ensures text.Some? && !other.NullSequence? ==>
      r == Success(RegionsMatch(text.value, thisStartIndex, other.Content(), otherStartIndex, length))
  {
    r := RegionMatches(text, thisStartIndex, if other.NullSequence? then None else Some(other.Content()),
                       otherStartIndex, length);
  }

  /** A whole pattern matched at the start of the other text is an
      occurrence of it. */
  lemma RegionsMatchOccurs(text: Text, startIndex: int, pattern: Text)
    ensures RegionsMatch(text, startIndex, pattern, 0, |pattern|) <==> OccursAt(text, pattern, startIndex)
  {
    if OccursAt(text, pattern, startIndex) {
      assert pattern[0..|pattern|] == pattern;
    }
  }

  /** Matching regions are symmetric in the two texts. */
  lemma RegionsMatchSymmetric(text: Text, thisStartIndex: int, other: Text, otherStartIndex: int, length: int)
    ensures RegionsMatch(text, thisStartIndex, other, otherStartIndex, length)
        <==> RegionsMatch(other, otherStartIndex, text, thisStartIndex, length)
  {
  }

  // ---------------------------------------------------------------------
  // ContentEquals

  /** `ContentEquals(string, char[] / StringBuilder / string)` with ordinal
      comparison: equal contents, null matching only null. */
  method ContentEquals(text: Option<Text>, other: Option<Text>) returns (r: bool)
    ensures r <==> text == other
  {
    if text.None? {
      return other.None?;
    }
    if other.None? {
      return false;
    }
    var len := |other.value|;
    if len != |text.value| {
      return false;
    }
    if len == 0 && |text.value| == 0 {
      return true;
    }
    var matched := RegionMatches(text, 0, other, 0, len);
    assert text.value[0..len] == text.value && other.value[0..len] == other.value;
    return matched.value;
  }

  /** `ContentEquals(string, ICharSequence)`: a valueless sequence counts
      as null. */
  method ContentEqualsSequence(text: Option<Text>, other: CharSequence) returns (r: bool)
    ensures r <==> text == other.AsText()
  {
    if text.None? {
      return !other.HasValue();
    }
    if !other.HasValue() {
      return false;
    }
    r := ContentEquals(text, other.AsText());
  }

  // ---------------------------------------------------------------------
  // StartsWith

  /** `StartsWith(string, string, int)` with ordinal comparison: `prefix`
      occurs in `text` at `startIndex`. */
  method StartsWith(text: Option<Text>, prefix: Option<Text>, startIndex: int) returns (r: Result<bool, Error>)
    ensures text.None? ==> r == Failure(ArgumentNull("text"))
    ensures text.Some? && prefix.None? ==> r == Failure(ArgumentNull("prefix"))
    ensures text.Some? && prefix.Some? ==> r == Success(OccursAt(text.value, prefix.value, startIndex))
  {
    if text.None? {
      return Failure(ArgumentNull("text"));
    }
    if prefix.None? {
      return Failure(ArgumentNull("prefix"));
    }
    r := RegionMatches(text, startIndex, prefix, 0, |prefix.value|);
    RegionsMatchOccurs(text.value, startIndex, prefix.value);
  }

  // ---------------------------------------------------------------------
  // Subsequence

  /** `Subsequence(string, int, int)`: `length` code units from
      `startIndex`. A null string, or a request for the whole string, gives
      the string itself back (a null string as a valueless sequence). */
  function Subsequence(text: Option<Text>, startIndex: int, length: int): (r: Result<CharSequence, Error>)
    ensures r.Success? <==> text.None? || (0 <= startIndex && 0 <= length && startIndex + length <= |text.value|)
    ensures r.Failure? ==> r.error == ArgumentOutOfRange(if startIndex < 0 then "startIndex" else "length")
    ensures r.Success? && text.None? ==> r.value == Valueless
    ensures r.Success? && text.Some? ==>
      r.value.Chars? && |r.value.chars| == length &&
      forall i :: 0 <= i < length ==> r.value.chars[i] == text.value[startIndex + i]
  {
    if text.None? then Success(Valueless)
    else if startIndex == 0 && length == |text.value| then Success(Chars(text.value))
    else if startIndex < 0 then Failure(ArgumentOutOfRange("startIndex"))
    else if length < 0 then Failure(ArgumentOutOfRange("length"))
    else if startIndex > |text.value| - length then Failure(ArgumentOutOfRange("length"))
    else Success(Chars(text.value[startIndex..startIndex + length]))
  }

  /** Taking a sub-sequence of a sub-sequence is one sub-sequence with the
      offsets added. */
  lemma SubsequenceOfSubsequence(text: Text, start1: int, length1: int, start2: int, length2: int)
    requires Subsequence(Some(text), start1, length1).Success?
    requires Subsequence(Some(Subsequence(Some(text), start1, length1).value.chars), start2, length2).Success?
    ensures Subsequence(Some(text), start1 + start2, length2).Success?
    ensures Subsequence(Some(Subsequence(Some(text), start1, length1).value.chars), start2, length2)
         == Subsequence(Some(text), start1 + start2, length2)
  {
    var outer := Subsequence(Some(text), start1, length1).value.chars;
    var inner := Subsequence(Some(outer), start2, length2).value.chars;
    var direct := Subsequence(Some(text), start1 + start2, length2).value.chars;
    assert |inner| == |direct|;
    forall i | 0 <= i < |inner|
      ensures inner[i] == direct[i]
    {
      assert inner[i] == outer[start2 + i] == text[start1 + start2 + i];
    }
    assert inner == direct;
  }

  // ---------------------------------------------------------------------
  // IndexOf

  /** `IndexOfSupplementary`: the first surrogate pair of `codePoint` at or
      after `startIndex`; -1 for a code point above the Unicode range. */
  method IndexOfSupplementary(text: Text, codePoint: int, startIndex: nat) returns (r: int)
    requires codePoint >= MinSupplementaryCodePoint
    ensures r == if IsValidCodePoint(codePoint) then FirstOccurrence(text, ToChars(codePoint), startIndex) else -1
    ensures r != -1 ==>
      (startIndex <= r < |text| - 1 && text[r] == HighSurrogate(codePoint) && text[r + 1] == LowSurrogate(codePoint))
  {
    if IsValidCodePoint(codePoint) {
      var pair := ToChars(codePoint);
      var hi, lo := pair[0], pair[1];
      var max := |text| - 1;
      var i := startIndex;
      while i < max
        invariant startIndex <= i
        invariant forall k :: startIndex <= k < i ==> !OccursAt(text, pair, k)
      {
        if text[i] == hi && text[i + 1] == lo {
          assert text[i..i + 2] == pair;
          FirstOccurrenceIs(text, pair, startIndex, i);
          return i;
        }
        assert text[i..i + 2][0] == text[i] && text[i..i + 2][1] == text[i + 1];
        i := i + 1;
      }
      FirstOccurrenceNone(text, pair, startIndex);
      return -1;
    }
    return -1;
  }

  /** `IndexOf(string, int, int)`: the first occurrence of the code point's
      code units at or after `startIndex` (a negative start counts as 0);
      -1 for an invalid code point or when there is none. */
  method IndexOf(text: Option<Text>, codePoint: int, startIndex: int) returns (r: Result<int, Error>)
    ensures text.None? ==> r == Failure(ArgumentNull("text"))
    ensures text.Some? ==> r == Success(
      if IsValidCodePoint(codePoint) then FirstOccurrence(text.value, ToChars(codePoint), Max(startIndex, 0))
      else -1)
  {
    if text.None? {
      return Failure(ArgumentNull("text"));
    }
    var t := text.value;
    var start := startIndex;
    if start < 0 {
      start := 0;
    } else if start >= |t| {
      if IsValidCodePoint(codePoint) {
        FirstOccurrenceNone(t, ToChars(codePoint), start);
      }
      return Success(-1);
    }
    if codePoint < MinSupplementaryCodePoint {
      if codePoint >= MinCodePoint {
        r := StringIndexOfChar(t, codePoint, start);
        return;
      }
      return Success(-1);
    } else {
      var k := IndexOfSupplementary(t, codePoint, start);
      return Success(k);
    }
  }

  /** `IndexOf(string, int)`: the search from the beginning. */
  method IndexOfFromStart(text: Option<Text>, codePoint: int) returns (r: Result<int, Error>)
    ensures text.None? ==> r == Failure(ArgumentNull("text"))
    ensures text.Some? ==> r == Success(
      if IsValidCodePoint(codePoint) then FirstOccurrence(text.value, ToChars(codePoint), 0) else -1)
  {
    r := IndexOf(text, codePoint, 0);
  }

  // ---------------------------------------------------------------------
  // LastIndexOf

  /** `LastIndexOfSupplementary`: the last surrogate pair of `codePoint`
      starting at or before `startIndex`; -1 for a code point above the
      Unicode range. */
  method LastIndexOfSupplementary(text: Text, codePoint: int, startIndex: int) returns (r: int)
    requires codePoint >= MinSupplementaryCodePoint
    ensures r == if IsValidCodePoint(codePoint) then LastOccurrence(text, ToChars(codePoint), startIndex) else -1
    ensures r != -1 ==>
      (0 <= r <= Min(startIndex, |text| - 2) && text[r] == HighSurrogate(codePoint) && text[r + 1] == LowSurrogate(codePoint))
  {
    if IsValidCodePoint(codePoint) {
      var pair := ToChars(codePoint);
      var hi, lo := pair[0], pair[1];
      var i := Min(startIndex, |text| - 2);
      LastOccurrenceSkip(text, pair, i, startIndex);
      while i >= 0
        invariant i <= |text| - 2
        invariant LastOccurrence(text, pair, i) == LastOccurrence(text, pair, startIndex)
      {
        if text[i] == hi && text[i + 1] == lo {
          assert text[i..i + 2] == pair;
          return i;
        }
        assert text[i..i + 2][0] == text[i] && text[i..i + 2][1] == text[i + 1];
        i := i - 1;
      }
      return -1;
    }
    return -1;
  }

  /** `LastIndexOf(string, int, int)` as written: a BMP code point is
      passed to `String.LastIndexOf(char, int)` with the start clamped only
      from above, so a negative start on a non-empty string throws. */
  method LastIndexOfAsWritten(text: Option<Text>, codePoint: int, startIndex: int) returns (r: Result<int, Error>)
    ensures r.Failure? <==> text.None? || (MinCodePoint <= codePoint < MinSupplementaryCodePoint && text.value != [] && startIndex < 0)
    ensures r.Failure? ==> r.error == if text.None? then ArgumentNull("text") else ArgumentOutOfRange("startIndex")
    ensures r.Success? ==>
      r.value == (if IsValidCodePoint(codePoint) then LastOccurrence(text.value, ToChars(codePoint), startIndex) else -1)
  {
    if text.None? {
      return Failure(ArgumentNull("text"));
    }
    var t := text.value;
    if codePoint < MinSupplementaryCodePoint {
      if codePoint >= MinCodePoint {
        var from := Min(startIndex, |t| - 1);
        LastOccurrenceSkip(t, [codePoint], from, startIndex);
        r := StringLastIndexOfChar(t, codePoint, from);
        return;
      }
      return Success(-1);
    } else {
      var k := LastIndexOfSupplementary(t, codePoint, startIndex);
      return Success(k);
    }
  }

  /** `LastIndexOf(string, int, int)` as documented: the last occurrence of
      the code point's code units starting at or before `startIndex`; a
      negative start finds nothing. */
  method LastIndexOf(text: Option<Text>, codePoint: int, startIndex: int) returns (r: Result<int, Error>)
    ensures text.None? ==> r == Failure(ArgumentNull("text"))
    ensures text.Some? ==> r == Success(
      if IsValidCodePoint(codePoint) then LastOccurrence(text.value, ToChars(codePoint), startIndex) else -1)
  {
    if text.None? {
      return Failure(ArgumentNull("text"));
    }
    var t := text.value;
    if codePoint < MinSupplementaryCodePoint {
      if codePoint >= MinCodePoint {
        var from := Min(startIndex, |t| - 1);
        LastOccurrenceSkip(t, [codePoint], from, startIndex);
        if from < 0 {
          return Success(-1);
        }
        r := StringLastIndexOfChar(t, codePoint, from);
        return;
      }
      return Success(-1);
    } else {
      var k := LastIndexOfSupplementary(t, codePoint, startIndex);
      return Success(k);
    }
  }

  /** `LastIndexOf(string, int)`: the search back from the last code unit. */
  method LastIndexOfFromEnd(text: Option<Text>, codePoint: int) returns (r: Result<int, Error>)
    ensures text.None? ==> r == Failure(ArgumentNull("text"))
    ensures text.Some? ==> r == Success(
      if IsValidCodePoint(codePoint) then LastOccurrence(text.value, ToChars(codePoint), |text.value| - 1) else -1)
  {
    if text.None? {
      return Failure(ArgumentNull("text"));
    }
    r := LastIndexOf(text, codePoint, |text.value| - 1);
  }

  /** The two readings disagree on "a" searched for 'a' from index -1: the
      code as written throws, the documented behaviour is -1. */
  method LastIndexOfNegativeStart() returns (asWritten: Result<int, Error>, corrected: Result<int, Error>)
    ensures asWritten == Failure(ArgumentOutOfRange("startIndex"))
    ensures corrected == Success(-1)
  {
    asWritten := LastIndexOfAsWritten(Some([0x61]), 0x61, -1);
    corrected := LastIndexOf(Some([0x61]), 0x61, -1);
  }
}
