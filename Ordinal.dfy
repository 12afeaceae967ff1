/**
  The ordinal (code-unit by code-unit) rules shared by the string extensions
  and the character-sequence comparer: lexicographic comparison, and search
  for a run of code units inside a text.
*/
module Ordinal {
  import opened Wrappers
  import opened TextTypes

  /** Number of leading code units on which `a` and `b` agree. */
  function CommonPrefixLength(a: Text, b: Text): (k: nat)
    ensures k <= |a| && k <= |b|
    ensures a[..k] == b[..k]
    ensures k < |a| && k < |b| ==> a[k] != b[k]
  {
    if a == [] || b == [] || a[0] != b[0] then 0
    else
      var k' := CommonPrefixLength(a[1..], b[1..]);
      assert a[..k' + 1] == [a[0]] + a[1..][..k'];
      assert b[..k' + 1] == [b[0]] + b[1..][..k'];
      k' + 1
  }

  /** The ordinal comparison of the compare loops: the difference of the
      first differing code units, or else the difference of the lengths. */
  function Compare(a: Text, b: Text): (r: int)
    ensures r == 0 <==> a == b
  {
    var k := CommonPrefixLength(a, b);
    assert k == |a| && k == |b| ==> a == a[..k] && b == b[..k];
    if k < |a| && k < |b| then a[k] - b[k] else |a| - |b|
  }

  /** The common prefix length is determined by where the texts first
      differ. */
  lemma CommonPrefixLengthIs(a: Text, b: Text, i: nat)
    requires i <= |a| && i <= |b| && a[..i] == b[..i]
    requires i == |a| || i == |b| || a[i] != b[i]
    ensures CommonPrefixLength(a, b) == i
  {
  }

  /** Comparison with null: null sorts before every text, two nulls tie. */
  function CompareNullable(x: Option<Text>, y: Option<Text>): (r: int)
    ensures r == 0 <==> x == y
  {
    if x.None? then (if y.None? then 0 else -1)
    else if y.None? then 1
    else Compare(x.value, y.value)
  }

  lemma {:induction false} CommonPrefixLengthSymmetric(a: Text, b: Text)
    ensures CommonPrefixLength(a, b) == CommonPrefixLength(b, a)
  {
    if a != [] && b != [] && a[0] == b[0] {
      CommonPrefixLengthSymmetric(a[1..], b[1..]);
    }
  }

  /** Swapping the operands negates the result. */
  lemma CompareAntisymmetric(a: Text, b: Text)
    ensures Compare(a, b) == -Compare(b, a)
  {
    CommonPrefixLengthSymmetric(a, b);
  }

  lemma CompareNullableAntisymmetric(x: Option<Text>, y: Option<Text>)
    ensures CompareNullable(x, y) == -CompareNullable(y, x)
  {
    if x.Some? && y.Some? {
      CompareAntisymmetric(x.value, y.value);
    }
  }

  /** Compare is the usual lexicographic recursion on the first code unit. */
  lemma CompareUnfold(a: Text, b: Text)
    ensures Compare(a, b) ==
      if a == [] || b == [] then |a| - |b|
      else if a[0] != b[0] then a[0] - b[0]
      else Compare(a[1..], b[1..])
  {
  }

  /** The order is transitive, so Compare is a proper sort order. */
  lemma {:induction false} CompareTransitive(a: Text, b: Text, c: Text)
    requires Compare(a, b) < 0 && Compare(b, c) < 0
    ensures Compare(a, c) < 0
  {
    CompareUnfold(a, b);
    CompareUnfold(b, c);
    CompareUnfold(a, c);
    if a != [] && b != [] && c != [] && a[0] == b[0] && b[0] == c[0] {
      CompareTransitive(a[1..], b[1..], c[1..]);
    }
  }

  /** `pattern` occurs in `text` starting at index `k`. */
  predicate OccursAt(text: Text, pattern: Text, k: int) {
    0 <= k && k + |pattern| <= |text| && text[k..k + |pattern|] == pattern
  }

  /** Smallest index `k >= from` where `pattern` occurs, or -1. */
  function FirstOccurrence(text: Text, pattern: Text, from: nat): (r: int)
    requires pattern != []
    ensures r == -1 || (from <= r && OccursAt(text, pattern, r))
    ensures forall k :: from <= k && (r == -1 || k < r) ==> !OccursAt(text, pattern, k)
    decreases |text| - from
  {
    if from + |pattern| > |text| then -1
    else if OccursAt(text, pattern, from) then from
    else FirstOccurrence(text, pattern, from + 1)
  }

  /** Largest index `k <= from` where `pattern` occurs, or -1. */
  function LastOccurrence(text: Text, pattern: Text, from: int): (r: int)
    ensures r == -1 || (r <= from && OccursAt(text, pattern, r))
    ensures forall k :: r < k <= from ==> !OccursAt(text, pattern, k)
    decreases if from < 0 then 0 else from + 1
  {
    if from < 0 then -1
    else if OccursAt(text, pattern, from) then from
    else LastOccurrence(text, pattern, from - 1)
  }

  /** An index that occurs, with nothing earlier from `from` on, is the
      first occurrence. */
  lemma FirstOccurrenceIs(text: Text, pattern: Text, from: nat, i: int)
    requires pattern != []
    requires from <= i && OccursAt(text, pattern, i)
    requires forall k :: from <= k < i ==> !OccursAt(text, pattern, k)
    ensures FirstOccurrence(text, pattern, from) == i
  {
  }

  /** No occurrence from `from` on means the search yields -1. */
  lemma FirstOccurrenceNone(text: Text, pattern: Text, from: nat)
    requires pattern != []
    requires forall k :: from <= k ==> !OccursAt(text, pattern, k)
    ensures FirstOccurrence(text, pattern, from) == -1
  {
  }

  lemma LastOccurrenceIs(text: Text, pattern: Text, from: int, i: int)
    requires i <= from && OccursAt(text, pattern, i)
    requires forall k :: i < k <= from ==> !OccursAt(text, pattern, k)
    ensures LastOccurrence(text, pattern, from) == i
  {
  }

  lemma LastOccurrenceNone(text: Text, pattern: Text, from: int)
    requires forall k :: k <= from ==> !OccursAt(text, pattern, k)
    ensures LastOccurrence(text, pattern, from) == -1
  {
  }

  /** Occurrences past `from` up to `to` being absent, searching back from
      `to` finds what searching back from `from` finds. */
  lemma LastOccurrenceSkip(text: Text, pattern: Text, from: int, to: int)
    requires from <= to
    requires forall k :: from < k <= to ==> !OccursAt(text, pattern, k)
    ensures LastOccurrence(text, pattern, to) == LastOccurrence(text, pattern, from)
  {
    var r := LastOccurrence(text, pattern, from);
    if r == -1 {
      LastOccurrenceNone(text, pattern, to);
    } else {
      LastOccurrenceIs(text, pattern, to, r);
    }
  }
}
