/**
  `CharSequenceComparer.Ordinal` (J2N/Text/CharSequenceComparer.cs): the
  ordinal comparer over `ICharSequence`, `char[]`, `StringBuilder` and
  `string`, with its untyped `Compare(object, object)` and
  `GetHashCode(object)` entry points.

  The comparer mutates nothing, so its loops are folds written here as
  recursive functions. Three `Compare` overloads disagree with the others
  on how they treat null and valueless sequences; each is given as written
  (`...AsWritten`) beside the consistent reading that the rest of the model
  uses.
*/
module CharSequenceComparer {
  import opened Wrappers
  import opened TextTypes
  import opened Ordinal

  // ---------------------------------------------------------------------
  // The Harmony string hash

  /** One step of the hash loop, `hash = c + ((hash << 5) - hash)`, in
      unchecked 32-bit arithmetic: it is `c + 31 * hash` wrapped. */
  function HashStep(hash: Int32, c: Char16): (r: Int32)
    ensures r == Wrap32(c + 31 * hash)
  {
    var shifted := Wrap32(hash * 32);
    var difference := Wrap32(shifted - hash);
    var k1 := (shifted - hash * 32) / 0x1_0000_0000;
    var k2 := (difference - (shifted - hash)) / 0x1_0000_0000;
    assert (c + difference) - (c + 31 * hash) == (k1 + k2) * 0x1_0000_0000;
    Wrap32Congruent(c + difference, c + 31 * hash);
    Wrap32(c + difference)
  }

  /** The polynomial the hash evaluates, in unbounded integers:
      `s[0]*31^(n-1) + ... + s[n-1]`. */
  function Polynomial(s: Text): int {
    if s == [] then 0 else 31 * Polynomial(s[..|s| - 1]) + s[|s| - 1]
  }

  /** The loop of `GetHashCodeImpl` (and of the `char[]` and
      `ICharSequence` overloads): the polynomial hash of the code units,
      reduced to 32 bits. */
  function HarmonyHash(s: Text): (h: Int32)
    ensures h == Wrap32(Polynomial(s))
  {
    if s == [] then 0
    else
      var prefix := s[..|s| - 1];
      var previous := HarmonyHash(prefix);
      StepAgrees(Polynomial(prefix), s[|s| - 1], previous);
      HashStep(previous, s[|s| - 1])
  }

  /** One step on a wrapped hash wraps to the polynomial one code unit
      longer. */
  lemma StepAgrees(p: int, c: Char16, previous: Int32)
    requires previous == Wrap32(p)
    ensures Wrap32(c + 31 * previous) == Wrap32(31 * p + c)
  {
    ScaleCongruent(previous - p);
    assert (c + 31 * previous) - (31 * p + c) == 31 * (previous - p);
    Wrap32Congruent(c + 31 * previous, 31 * p + c);
  }

  /** A multiple of 2^32 stays one when scaled by 31. */
  lemma ScaleCongruent(d: int)
    requires d % 0x1_0000_0000 == 0
    ensures (31 * d) % 0x1_0000_0000 == 0
  {
    var k := d / 0x1_0000_0000;
    assert d == k * 0x1_0000_0000;
    assert 31 * d == (31 * k) * 0x1_0000_0000;
  }

  /** The hash of text extended by one code unit is one more step. */
  lemma {:induction false} HarmonyHashAppend(s: Text, c: Char16)
    ensures HarmonyHash(s + [c]) == HashStep(HarmonyHash(s), c)
  {
    assert (s + [c])[..|s + [c]| - 1] == s;
  }

  /** `GetHashCode(ICharSequence)`: `int.MaxValue` for null or valueless,
      0 for empty, else the Harmony hash. */
  function GetHashCodeSequence(obj: CharSequence): (r: Int32)
    ensures !obj.HasValue() ==> r == MaxInt32
    ensures obj.HasValue() ==> r == Wrap32(Polynomial(obj.chars))
    ensures obj.HasValue() && obj.chars == [] ==> r == 0
  {
    if !obj.HasValue() then MaxInt32
    else if obj.Length() == 0 then 0
    else HarmonyHash(obj.chars)
  }

  /** `GetHashCode(char[])`, `(StringBuilder)` and `(string)`:
      `int.MaxValue` for null, else the Harmony hash. */
  function GetHashCodeText(obj: Option<Text>): (r: Int32)
    ensures obj.None? ==> r == MaxInt32
    ensures obj.Some? ==> r == Wrap32(Polynomial(obj.value))
  {
    if obj.None? then MaxInt32
    else if |obj.value| == 0 then 0
    else HarmonyHash(obj.value)
  }

  /** Every representation of the same characters hashes alike. */
  lemma HashAgreesAcrossRepresentations(x: CharSequence, y: Option<Text>)
    requires x.AsText() == y
    ensures GetHashCodeSequence(x) == GetHashCodeText(y)
  {
  }

  // ---------------------------------------------------------------------
  // Equality

  /** `EqualsImpl` and the equality loops: same length and the same code
      unit at every index. */
  function EqualsImpl(x: Text, y: Text): (r: bool)
    ensures r <==> x == y
  {
    if |x| != |y| then false
    else if x == [] then true
    else x[0] == y[0] && EqualsImpl(x[1..], y[1..])
  }

  /** `Equals(ICharSequence, ICharSequence)`: null and valueless are equal
      to each other and to nothing else. */
  function EqualsSequences(x: CharSequence, y: CharSequence): (r: bool)
    ensures r <==> x.AsText() == y.AsText()
  {
    if !x.HasValue() then !y.HasValue()
    else if !y.HasValue() then false
    else EqualsImpl(x.chars, y.chars)
  }

  /** `Equals(ICharSequence, char[])`, `(ICharSequence, StringBuilder)` and
      `(ICharSequence, string)`: an absent sequence equals only null. */
  function EqualsText(x: CharSequence, y: Option<Text>): (r: bool)
    ensures r <==> x.AsText() == y
  {
    if !x.HasValue() then y.None?
    else if y.None? then false
    else EqualsImpl(x.chars, y.value)
  }

  /** Equal sequences have equal hash codes, as an equality comparer
      requires. */
  lemma EqualsThenSameHash(x: CharSequence, y: CharSequence)
    requires EqualsSequences(x, y)
    ensures GetHashCodeSequence(x) == GetHashCodeSequence(y)
  {
  }

  lemma EqualsTextThenSameHash(x: CharSequence, y: Option<Text>)
    requires EqualsText(x, y)
    ensures GetHashCodeSequence(x) == GetHashCodeText(y)
  {
  }

  // ---------------------------------------------------------------------
  // Comparison

  /** `Compare(ICharSequence, char[])`, and the consistent reading of the
      `string` and `StringBuilder` overloads: an absent sequence sorts with
      null, before any text. */
  function CompareText(x: CharSequence, y: Option<Text>): (r: int)
    ensures r == CompareNullable(x.AsText(), y)
    ensures r == 0 <==> EqualsText(x, y)
  {
    if !x.HasValue() then (if y.None? then 0 else -1)
    else if y.None? then 1
    else Compare(x.chars, y.value)
  }

  /** `Compare(ICharSequence, ICharSequence)` read consistently with the
      other overloads and with `Equals`. */
  function CompareSequences(x: CharSequence, y: CharSequence): (r: int)
    ensures r == CompareNullable(x.AsText(), y.AsText())
    ensures r == 0 <==> EqualsSequences(x, y)
  {
    if !x.HasValue() then (if !y.HasValue() then 0 else -1)
    else if !y.HasValue() then 1
    else Compare(x.chars, y.chars)
  }

  /** Swapping the operands negates the comparison. */
  lemma CompareSequencesAntisymmetric(x: CharSequence, y: CharSequence)
    ensures CompareSequences(x, y) == -CompareSequences(y, x)
  {
    CompareNullableAntisymmetric(x.AsText(), y.AsText());
  }

  /** The comparison is transitive. */
  lemma CompareSequencesTransitive(x: CharSequence, y: CharSequence, z: CharSequence)
    requires CompareSequences(x, y) < 0 && CompareSequences(y, z) < 0
    ensures CompareSequences(x, z) < 0
  {
    if x.HasValue() && y.HasValue() && z.HasValue() {
      CompareTransitive(x.chars, y.chars, z.chars);
    }
  }

  /** `Compare(ICharSequence, ICharSequence)` as written: for an absent `x`
      the test on `y` lacks its negation, so the result is 0 against null
      or any sequence with a value, and -1 against a valueless one. */
  function CompareSequencesAsWritten(x: CharSequence, y: CharSequence): (r: int)
    ensures x.HasValue() ==> r == CompareSequences(x, y)
    ensures !x.HasValue() ==> (r == 0 <==> !y.Valueless?) && (r != 0 ==> r == -1)
  {
    if !x.HasValue() then (if y.NullSequence? || y.HasValue() then 0 else -1)
    else if !y.HasValue() then 1
    else Compare(x.chars, y.chars)
  }

  /** As written, null ties with "a" while "a" sorts after null, and a
      valueless sequence sorts before itself. */
  lemma CompareSequencesAsWrittenCounterexample()
    ensures CompareSequencesAsWritten(NullSequence, Chars([0x61])) == 0
    ensures CompareSequencesAsWritten(Chars([0x61]), NullSequence) == 1
    ensures CompareSequencesAsWritten(Valueless, Valueless) == -1
    ensures CompareSequences(NullSequence, Chars([0x61])) == -1
    ensures CompareSequences(Valueless, Valueless) == 0
  {
  }

  /** `Compare(ICharSequence, string)` as written: only a null `x` is
      tested, so a valueless `x` compares as the empty text. */
  function CompareWithStringAsWritten(x: CharSequence, y: Option<Text>): (r: int)
    ensures !x.Valueless? ==> r == CompareText(x, y)
    ensures x.Valueless? ==> r == CompareNullable(Some([]), y)
  {
    if x.NullSequence? then (if y.None? then 0 else -1)
    else if y.None? then 1
    else Compare(x.Content(), y.value)
  }

  /** As written, a valueless sequence sorts after null although `Equals`
      calls the two equal. */
  lemma CompareWithStringAsWrittenCounterexample()
    ensures CompareWithStringAsWritten(Valueless, None) == 1
    ensures EqualsText(Valueless, None)
    ensures CompareText(Valueless, None) == 0
  {
  }

  /** `Compare(ICharSequence, StringBuilder)` as written: a null `x` gives
      -1 even against a null `y`, and a valueless `x` compares as the empty
      text. */
  function CompareWithStringBuilderAsWritten(x: CharSequence, y: Option<Text>): (r: int)
    ensures x.Chars? ==> r == CompareText(x, y)
    ensures x.NullSequence? ==> r == -1
    ensures x.Valueless? ==> r == CompareNullable(Some([]), y)
  {
    if x.NullSequence? then -1
    else if y.None? then 1
    else Compare(x.Content(), y.value)
  }

  /** As written, null sorts before null. */
  lemma CompareWithStringBuilderAsWrittenCounterexample()
    ensures CompareWithStringBuilderAsWritten(NullSequence, None) == -1
    ensures CompareText(NullSequence, None) == 0
  {
  }

  // ---------------------------------------------------------------------
  // The untyped entry points

  /** What `Compare(object, object)` does: a result, a call into the
      operand's own `IComparable.CompareTo` (whose code is not part of this
      model), or an exception. */
  datatype Outcome = Ordered(result: int) | DelegatedToCompareTo | Threw(error: Error)

  /** Whether the object implements `IComparable`: `string` and the
      library's character sequences do, `StringBuilder` and arrays do not. */
  predicate IsComparable(o: TextObject) {
    match o
    case NullObject => false
    case StringObject(_) => true
    case StringBuilderObject(_) => false
    case CharArrayObject(_) => false
    case CharSequenceObject(_) => true
    case UserSequenceObject(_, comparable, _) => comparable
    case OtherObject(comparable, _) => comparable
  }

  /** `Compare(object, object)` as written: a character sequence `x` against
      a sequence, `string`, `StringBuilder` or `char[]` goes to the typed
      overload for `y`, with that overload's own handling of null and
      valueless sequences. `sameReference` says whether `x` and `y` are one
      object; two nulls always are. */
  function CompareObjectsAsWritten(x: TextObject, y: TextObject, sameReference: bool): (r: Outcome)
    requires sameReference ==> x == y
    ensures sameReference || (x.NullObject? && y.NullObject?) ==> r == Ordered(0)
    ensures !sameReference && x.NullObject? && !y.NullObject? ==> r == Ordered(-1)
    ensures !sameReference && !x.NullObject? && y.NullObject? ==> r == Ordered(1)
    ensures !sameReference && x.IsSequence() && y.IsSequence() ==>
      r == Ordered(CompareSequencesAsWritten(x.AsSequence(), y.AsSequence()))
    ensures !sameReference && x.IsSequence() && y.StringObject? ==>
      r == Ordered(CompareWithStringAsWritten(x.AsSequence(), Some(y.s)))
    ensures !sameReference && x.IsSequence() && y.StringBuilderObject? ==>
      r == Ordered(CompareWithStringBuilderAsWritten(x.AsSequence(), Some(y.s)))
    ensures !sameReference && x.IsSequence() && y.CharArrayObject? ==>
      r == Ordered(CompareText(x.AsSequence(), Some(y.s)))
    ensures !x.NullObject? && !y.NullObject? && !sameReference && !(x.IsSequence() && (y.IsSequence() || y.IsText())) ==>
      r == if IsComparable(x) then DelegatedToCompareTo else Threw(NotComparable("x"))
  {
    if sameReference || (x.NullObject? && y.NullObject?) then Ordered(0)
    else if x.NullObject? then Ordered(-1)
    else if y.NullObject? then Ordered(1)
    else if x.IsSequence() && y.IsSequence() then
      Ordered(CompareSequencesAsWritten(x.AsSequence(), y.AsSequence()))
    else if x.IsSequence() && y.StringObject? then
      Ordered(CompareWithStringAsWritten(x.AsSequence(), Some(y.s)))
    else if x.IsSequence() && y.StringBuilderObject? then
      Ordered(CompareWithStringBuilderAsWritten(x.AsSequence(), Some(y.s)))
    else if x.IsSequence() && y.CharArrayObject? then
      Ordered(CompareText(x.AsSequence(), Some(y.s)))
    else if IsComparable(x) then DelegatedToCompareTo
    else Threw(NotComparable("x"))
  }

  /** As written, the untyped comparison puts a valueless sequence level
      with "a" but "a" after it, and calls a valueless sequence and ""
      level although the untyped equality calls them different. */
  lemma CompareObjectsAsWrittenCounterexample()
    ensures CompareObjectsAsWritten(CharSequenceObject(None), CharSequenceObject(Some([0x61])), false) == Ordered(0)
    ensures CompareObjectsAsWritten(CharSequenceObject(Some([0x61])), CharSequenceObject(None), false) == Ordered(1)
    ensures CompareObjectsAsWritten(CharSequenceObject(None), StringObject([]), false) == Ordered(0)
    ensures EqualsObjects(CharSequenceObject(None), StringObject([]), false) == Decided(false)
    ensures CompareObjects(CharSequenceObject(None), CharSequenceObject(Some([0x61])), false) == Ordered(-1)
    ensures CompareObjects(CharSequenceObject(None), StringObject([]), false) == Ordered(-1)
  {
    assert Compare([], []) == 0;
  }

  /** `Compare(object, object)` read consistently: the same dispatch, into
      the consistent overloads `CompareSequences` and `CompareText`. */
  function CompareObjects(x: TextObject, y: TextObject, sameReference: bool): (r: Outcome)
    requires sameReference ==> x == y
    ensures sameReference || (x.NullObject? && y.NullObject?) ==> r == Ordered(0)
    ensures !sameReference && x.NullObject? && !y.NullObject? ==> r == Ordered(-1)
    ensures !sameReference && !x.NullObject? && y.NullObject? ==> r == Ordered(1)
    ensures x.IsSequence() && y.IsSequence() ==>
      r.Ordered? && (r.result == 0 <==> x.value == y.value)
    ensures x.IsSequence() && y.IsText() ==>
      r.Ordered? && (r.result == 0 <==> x.value == Some(y.s))
    ensures !x.NullObject? && !y.NullObject? && !sameReference && !(x.IsSequence() && (y.IsSequence() || y.IsText())) ==>
      r == if IsComparable(x) then DelegatedToCompareTo else Threw(NotComparable("x"))
  {
    if sameReference || (x.NullObject? && y.NullObject?) then Ordered(0)
    else if x.NullObject? then Ordered(-1)
    else if y.NullObject? then Ordered(1)
    else if x.IsSequence() && y.IsSequence() then
      Ordered(CompareSequences(x.AsSequence(), y.AsSequence()))
    else if x.IsSequence() && y.IsText() then
      Ordered(CompareText(x.AsSequence(), Some(y.s)))
    else if IsComparable(x) then DelegatedToCompareTo
    else Threw(NotComparable("x"))
  }

  /** Read consistently, the untyped comparison is antisymmetric between
      two character sequences. */
  lemma CompareObjectsAntisymmetric(x: TextObject, y: TextObject)
    requires x.IsSequence() && y.IsSequence()
    ensures CompareObjects(x, y, false).result == -CompareObjects(y, x, false).result
  {
    CompareSequencesAntisymmetric(x.AsSequence(), y.AsSequence());
  }

  /** What `Equals(object, object)` does: an answer, or a call into the
      first operand's own `Equals(object)` (whose code is not part of this
      model). */
  datatype Equality = Decided(equal: bool) | DelegatedToEquals

  /** `Equals(object, object)`. `sameReference` says whether `x` and `y`
      are one object; two nulls always are. */
  function EqualsObjects(x: TextObject, y: TextObject, sameReference: bool): (r: Equality)
    requires sameReference ==> x == y
    ensures sameReference || (x.NullObject? && y.NullObject?) ==> r == Decided(true)
    ensures !sameReference && (x.NullObject? != y.NullObject?) ==> r == Decided(false)
    ensures x.IsSequence() && y.IsSequence() ==> r == Decided(x.value == y.value)
    ensures x.IsSequence() && y.IsText() ==> r == Decided(x.value == Some(y.s))
    ensures !x.NullObject? && !y.NullObject? && !sameReference && !(x.IsSequence() && (y.IsSequence() || y.IsText())) ==>
      r == DelegatedToEquals
  {
    if sameReference || (x.NullObject? && y.NullObject?) then Decided(true)
    else if x.NullObject? || y.NullObject? then Decided(false)
    else if x.IsSequence() && y.IsSequence() then
      Decided(EqualsSequences(x.AsSequence(), y.AsSequence()))
    else if x.IsSequence() && y.IsText() then
      Decided(EqualsText(x.AsSequence(), Some(y.s)))
    else DelegatedToEquals
  }

  /** Read consistently, the untyped equality and comparison agree on a
      character sequence: equal exactly when the comparison gives 0. */
  lemma EqualsObjectsAgreesWithCompare(x: TextObject, y: TextObject, sameReference: bool)
    requires sameReference ==> x == y
    requires x.IsSequence() && (y.IsSequence() || y.IsText())
    ensures EqualsObjects(x, y, sameReference).Decided?
    ensures EqualsObjects(x, y, sameReference).equal <==> CompareObjects(x, y, sameReference).result == 0
  {
  }

  /** `GetHashCode(object)` as written: `int.MaxValue` for null, the text
      hash for a `string`, `StringBuilder`, `char[]` or one of the library's
      character sequences, and the object's own hash code otherwise, also
      for a character sequence of any other type. */
  function GetHashCodeObjectAsWritten(obj: TextObject): (r: Int32)
    ensures obj.NullObject? ==> r == MaxInt32
    ensures obj.IsText() ==> r == Wrap32(Polynomial(obj.s))
    ensures obj.CharSequenceObject? ==> r == GetHashCodeText(obj.value)
    ensures obj.UserSequenceObject? || obj.OtherObject? ==> r == obj.ownHashCode
  {
    match obj
    case NullObject => MaxInt32
    case StringObject(s) => GetHashCodeText(Some(s))
    case StringBuilderObject(s) => GetHashCodeText(Some(s))
    case CharArrayObject(s) => GetHashCodeText(Some(s))
    case CharSequenceObject(_) => GetHashCodeSequence(obj.AsSequence())
    case UserSequenceObject(_, _, ownHashCode) => ownHashCode
    case OtherObject(_, ownHashCode) => ownHashCode
  }

  /** As written, untyped equality calls a character sequence of another
      type holding "a" equal to the string "a", yet the untyped hash gives
      the sequence its own hash code (here 0) and the string 97. */
  lemma EqualsObjectsHashMismatch()
    ensures EqualsObjects(UserSequenceObject(Some([0x61]), true, 0), StringObject([0x61]), false) == Decided(true)
    ensures GetHashCodeObjectAsWritten(UserSequenceObject(Some([0x61]), true, 0)) == 0
    ensures GetHashCodeObjectAsWritten(StringObject([0x61])) == 97
  {
    assert Polynomial([0x61]) == 97 by {
      assert [0x61][..0] == [];
    }
  }

  /** Without the mismatch, objects the untyped equality finds equal get
      the same untyped hash code, as long as neither is a character
      sequence of a type outside the library. */
  lemma EqualsObjectsThenSameHashAsWritten(x: TextObject, y: TextObject, sameReference: bool)
    requires sameReference ==> x == y
    requires !sameReference ==> !x.UserSequenceObject? && !y.UserSequenceObject?
    requires EqualsObjects(x, y, sameReference) == Decided(true)
    ensures GetHashCodeObjectAsWritten(x) == GetHashCodeObjectAsWritten(y)
  {
    if !sameReference && x.IsSequence() && y.IsSequence() {
      EqualsThenSameHash(x.AsSequence(), y.AsSequence());
    } else if !sameReference && x.IsSequence() && !y.NullObject? {
      EqualsTextThenSameHash(x.AsSequence(), Some(y.s));
    }
  }

  /** `GetHashCode(object)` read consistently with `Equals(object, object)`:
      every character sequence is hashed by its characters, whatever its
      type. */
  function GetHashCodeObject(obj: TextObject): (r: Int32)
    ensures obj.NullObject? ==> r == MaxInt32
    ensures obj.IsText() ==> r == Wrap32(Polynomial(obj.s))
    ensures obj.IsSequence() ==> r == GetHashCodeText(obj.value)
    ensures obj.OtherObject? ==> r == obj.ownHashCode
    ensures !obj.UserSequenceObject? ==> r == GetHashCodeObjectAsWritten(obj)
  {
    match obj
    case NullObject => MaxInt32
    case StringObject(s) => GetHashCodeText(Some(s))
    case StringBuilderObject(s) => GetHashCodeText(Some(s))
    case CharArrayObject(s) => GetHashCodeText(Some(s))
    case CharSequenceObject(_) => GetHashCodeSequence(obj.AsSequence())
    case UserSequenceObject(_, _, _) => GetHashCodeSequence(obj.AsSequence())
    case OtherObject(_, ownHashCode) => ownHashCode
  }

  /** Objects the untyped equality finds equal get the same consistent
      hash code, as an `IEqualityComparer` must guarantee. */
  lemma EqualsObjectsThenSameHash(x: TextObject, y: TextObject, sameReference: bool)
    requires sameReference ==> x == y
    requires EqualsObjects(x, y, sameReference) == Decided(true)
    ensures GetHashCodeObject(x) == GetHashCodeObject(y)
  {
    if !sameReference && x.IsSequence() && y.IsSequence() {
      EqualsThenSameHash(x.AsSequence(), y.AsSequence());
    } else if !sameReference && x.IsSequence() && !y.NullObject? {
      EqualsTextThenSameHash(x.AsSequence(), Some(y.s));
    }
  }
}
