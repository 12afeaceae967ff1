/**
  `CharArrayCharSequence` (J2N/Text/CharArrayCharSequence.cs): an
  `ICharSequence` over a `char[]` that it shares with its creator, or over
  null. The wrapper never writes to the array; `Subsequence` copies into a
  fresh one unless it can hand back the same array.
*/
module CharArrayCharSequences {
  import opened Wrappers
  import opened TextTypes
  import StringExtensions
  import CharSequenceComparer

  /** The array a possibly-null wrapper reads, as a frame. */
  function ArrayOf(c: CharArrayCharSequence?): array?<Char16> {
    if c == null then null else c.Value
  }

  /** What a possibly-null wrapper holds: `None` for a null wrapper or a
      null array. */
  function TextOf(c: CharArrayCharSequence?): (t: Option<Text>)
    reads ArrayOf(c)
  {
    if c == null then None else c.AsText()
  }

  /** What a possibly-null `char[]` holds. */
  function ArrayText(a: array?<Char16>): (t: Option<Text>)
    reads a
  {
    if a == null then None else Some(a[..])
  }

  class CharArrayCharSequence {
    /** The wrapped array, shared with whoever passed it in. */
    const Value: array?<Char16>

    /** Set once at construction: whether there is an array. */
    const HasValue: bool := Value != null

    constructor(value: array?<Char16>)
      ensures Value == value
      ensures HasValue <==> value != null
    {
      Value := value;
    }

    /** The wrapped characters, or `None` when `Value` is null. */
    function AsText(): (t: Option<Text>)
      reads Value
      ensures t.Some? <==> HasValue
    {
      if Value == null then None else Some(Value[..])
    }

    /** The wrapper as an `ICharSequence` value. */
    function AsSequence(): (cs: CharSequence)
      reads Value
      ensures cs.AsText() == AsText()
    {
      if Value == null then Valueless else Chars(Value[..])
    }

    /** `Length`: 0 without an array, the array's length otherwise. */
    function Length(): (r: nat)
      reads Value
      ensures !HasValue ==> r == 0
      ensures HasValue ==> r == Value.Length
      ensures r == AsSequence().Length()
    {
      if Value == null then 0 else Value.Length
    }

    /** The indexer: fails without an array, and outside the array the
        array access fails. */
    function Get(index: int): (r: Result<Char16, Error>)
      reads Value
      ensures !HasValue ==> r == Failure(InvalidOperation)
      ensures HasValue && !(0 <= index < Value.Length) ==> r == Failure(IndexOutOfRange)
      ensures HasValue && 0 <= index < Value.Length ==> r == Success(Value[index])
    {
      if Value == null then Failure(InvalidOperation)
      else if 0 <= index < Value.Length then Success(Value[index])
      else Failure(IndexOutOfRange)
    }

    /** `Subsequence(startIndex, length)`: the same checks and result as
        the `string` extension. A null array or the whole range gives a new
        wrapper over the same array; otherwise the characters are copied
        into a fresh array. */
    method Subsequence(startIndex: int, length: int) returns (r: Result<CharArrayCharSequence, Error>)
      ensures var expected := StringExtensions.Subsequence(AsText(), startIndex, length);
        && (r.Failure? <==> expected.Failure?)
        && (r.Failure? ==> r.error == expected.error)
        && (r.Success? ==> fresh(r.value) && r.value.AsSequence() == expected.value)
      ensures r.Success? && (Value == null || (startIndex == 0 && length == Value.Length)) ==>
        r.value.Value == Value
      ensures r.Success? && !(Value == null || (startIndex == 0 && length == Value.Length)) ==>
        fresh(r.value.Value) && r.value.Value != null && r.value.Value.Length == length
    {
      if Value == null || (startIndex == 0 && length == Value.Length) {
        var whole := new CharArrayCharSequence(Value);
        return Success(whole);
      }
      if startIndex < 0 {
        return Failure(ArgumentOutOfRange("startIndex"));
      }
      if length < 0 {
        return Failure(ArgumentOutOfRange("length"));
      }
      if startIndex > Value.Length - length {
        return Failure(ArgumentOutOfRange("length"));
      }
      var result := new Char16[length];
      var i, j := 0, startIndex;
      while i < length
        invariant 0 <= i <= length && j == startIndex + i
        invariant result[..i] == Value[startIndex..startIndex + i]
      {
        result[i] := Value[j];
        i, j := i + 1, j + 1;
      }
      assert result[..] == Value[startIndex..startIndex + length];
      var part := new CharArrayCharSequence(result);
      return Success(part);
    }

    /** `Equals(ICharSequence)`, and `Equals(StringCharSequence)` and
        `Equals(StringBuilderCharSequence)`, which defer to it in effect: an
        absent sequence equals only an absent one; otherwise the same
        characters. */
    function EqualsSequence(other: CharSequence): (r: bool)
      reads Value
      ensures r <==> AsText() == other.AsText()
    {
      if Value == null then !other.HasValue()
      else if !other.HasValue() then false
      else CharSequenceComparer.EqualsImpl(Value[..], other.chars)
    }

    /** `Equals(CharArrayCharSequence)`: compares with the other wrapper's
        array. */
    function EqualsWrapper(other: CharArrayCharSequence?): (r: bool)
      reads Value, ArrayOf(other)
      ensures r <==> AsText() == TextOf(other)
    {
      if Value == null then other == null || !other.HasValue
      else if other == null || !other.HasValue then false
      else EqualsText(other.AsText())
    }

    /** `Equals(string)`, `Equals(StringBuilder)` and `Equals(char[])`: a
        null array equals only null; otherwise the same characters. */
    function EqualsText(other: Option<Text>): (r: bool)
      reads Value
      ensures r <==> AsText() == other
    {
      if Value == null then other.None?
      else if other.None? then false
      else |other.value| == Value.Length && CharSequenceComparer.EqualsImpl(Value[..], other.value)
    }

    /** `Equals(object)`: null matches a wrapper without an array; text of
        any kind, and a character sequence of any type, matches the same
        characters; any other object matches nothing. */
    function EqualsObject(other: TextObject): (r: bool)
      reads Value
      ensures other.NullObject? ==> (r <==> !HasValue)
      ensures other.StringObject? || other.StringBuilderObject? || other.CharArrayObject? ==>
        (r <==> AsText() == Some(other.s))
      ensures other.IsSequence() ==> (r <==> AsText() == other.value)
      ensures other.OtherObject? ==> !r
    {
      match other
      case NullObject => !HasValue
      case StringObject(s) => EqualsText(Some(s))
      case StringBuilderObject(s) => EqualsText(Some(s))
      case CharArrayObject(s) => EqualsText(Some(s))
      case CharSequenceObject(_) => EqualsSequence(other.AsSequence())
      case UserSequenceObject(_, _, _) => EqualsSequence(other.AsSequence())
      case OtherObject(_, _) => false
    }

    /** `GetHashCode`: the ordinal comparer's hash of `Value`, which is the
        hash the comparer gives any sequence, string, `StringBuilder` or
        array with these characters. */
    function GetHashCode(): (r: Int32)
      reads Value
      ensures !HasValue ==> r == MaxInt32
      ensures HasValue ==> r == Wrap32(CharSequenceComparer.Polynomial(Value[..]))
      ensures r == CharSequenceComparer.GetHashCodeSequence(AsSequence())
    {
      CharSequenceComparer.GetHashCodeText(AsText())
    }

    /** Wrappers that are equal hash alike, and a wrapper equal to any
        non-null object hashes as the comparer's consistent `GetHashCode`
        hashes that object. The comparer as written agrees unless the
        object is a character sequence of a type outside the library,
        which it hashes with the object's own hash code. */
    lemma EqualsThenSameHash(other: TextObject)
      requires EqualsObject(other)
      requires !other.NullObject?
      ensures GetHashCode() == CharSequenceComparer.GetHashCodeObject(other)
      ensures !other.UserSequenceObject? ==> GetHashCode() == CharSequenceComparer.GetHashCodeObjectAsWritten(other)
    {
    }

    /** `operator ==(CharArrayCharSequence, CharArrayCharSequence)`: null
        and array-less wrappers are equal to each other; otherwise the same
        characters. */
    static function EqualOperator(csq1: CharArrayCharSequence?, csq2: CharArrayCharSequence?): (r: bool)
      reads ArrayOf(csq1), ArrayOf(csq2)
      ensures r <==> TextOf(csq1) == TextOf(csq2)
    {
      if csq1 == null || !csq1.HasValue then csq2 == null || !csq2.HasValue
      else if csq2 == null || !csq2.HasValue then false
      else csq1.EqualsWrapper(csq2)
    }

    /** `operator !=` on two wrappers. */
    static function NotEqualOperator(csq1: CharArrayCharSequence?, csq2: CharArrayCharSequence?): (r: bool)
      reads ArrayOf(csq1), ArrayOf(csq2)
      ensures r <==> TextOf(csq1) != TextOf(csq2)
    {
      !EqualOperator(csq1, csq2)
    }

    /** `operator ==(CharArrayCharSequence, char[])`. */
    static function EqualWithArray(csq1: CharArrayCharSequence?, csq2: array?<Char16>): (r: bool)
      reads ArrayOf(csq1), csq2
      ensures r <==> TextOf(csq1) == ArrayText(csq2)
    {
      if csq1 == null || !csq1.HasValue then csq2 == null
      else if csq2 == null then !csq1.HasValue
      else csq1.EqualsText(Some(csq2[..]))
    }

    /** `operator !=(CharArrayCharSequence, char[])`. */
    static function NotEqualWithArray(csq1: CharArrayCharSequence?, csq2: array?<Char16>): (r: bool)
      reads ArrayOf(csq1), csq2
      ensures r <==> TextOf(csq1) != ArrayText(csq2)
    {
      !EqualWithArray(csq1, csq2)
    }

    /** `operator ==(char[], CharArrayCharSequence)`. */
    static function ArrayEqualWith(csq1: array?<Char16>, csq2: CharArrayCharSequence?): (r: bool)
      reads csq1, ArrayOf(csq2)
      ensures r <==> ArrayText(csq1) == TextOf(csq2)
    {
      if csq1 == null then csq2 == null || !csq2.HasValue
      else if csq2 == null || !csq2.HasValue then false
      else csq2.EqualsText(Some(csq1[..]))
    }

    /** `operator !=(char[], CharArrayCharSequence)`. */
    static function ArrayNotEqualWith(csq1: array?<Char16>, csq2: CharArrayCharSequence?): (r: bool)
      reads csq1, ArrayOf(csq2)
      ensures r <==> ArrayText(csq1) != TextOf(csq2)
    {
      !ArrayEqualWith(csq1, csq2)
    }
  }

  /** The mixed `==` operators agree whichever side the array is on, and
      the wrapper operator is symmetric. */
  lemma EqualOperatorsSymmetric(c: CharArrayCharSequence?, d: CharArrayCharSequence?, a: array?<Char16>)
    ensures CharArrayCharSequence.EqualWithArray(c, a) == CharArrayCharSequence.ArrayEqualWith(a, c)
    ensures CharArrayCharSequence.EqualOperator(c, d) == CharArrayCharSequence.EqualOperator(d, c)
  {
  }

  /** The wrapper shares its array: a write through the array is seen
      through the wrapper, and two wrappers over one array stay equal. */
  method SharedArrayWrite(a: array<Char16>, index: int, c: Char16) returns (w1: CharArrayCharSequence, w2: CharArrayCharSequence)
    requires 0 <= index < a.Length
    modifies a
    ensures w1.Value == a && w2.Value == a
    ensures w1.Get(index) == Success(c)
    ensures CharArrayCharSequence.EqualOperator(w1, w2)
  {
    w1 := new CharArrayCharSequence(a);
    w2 := new CharArrayCharSequence(a);
    a[index] := c;
  }
}
