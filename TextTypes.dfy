/**
  Shared vocabulary of the text model: 32-bit integers, the exceptions the
  modelled members throw, and the kinds of character sequences they accept.

  A `string`, a `char[]` and a `StringBuilder` all carry a plain sequence of
  UTF-16 code units, so each is modelled as `Option<Text>`, with `None`
  for a null reference. An `ICharSequence` can in addition be a non-null
  object that holds no value (`HasValue` is false), so it gets a datatype of
  its own.
*/
module TextTypes {
  import opened Wrappers

  /** The range of a C# `int`. */
  const MinInt32: int := -0x8000_0000
  const MaxInt32: int := 0x7FFF_FFFF
  type Int32 = x: int | MinInt32 <= x <= MaxInt32

  /** A C# `char`: one UTF-16 code unit, surrogates included (Dafny's own
      `char` excludes the surrogate range, so it cannot stand for it). */
  type Char16 = c: int | 0 <= c <= 0xFFFF

  /** The text of a `string`, a `char[]` or a `StringBuilder`. */
  type Text = seq<Char16>

  /** Two's-complement wrap-around of unchecked C# `int` arithmetic. */
  function Wrap32(x: int): (r: Int32)
    ensures (r - x) % 0x1_0000_0000 == 0
  {
    (x + 0x8000_0000) % 0x1_0000_0000 - 0x8000_0000
  }

  /** Values that agree modulo 2^32 wrap to the same `int`. */
  lemma Wrap32Congruent(a: int, b: int)
    requires (a - b) % 0x1_0000_0000 == 0
    ensures Wrap32(a) == Wrap32(b)
  {
    var k := (a - b) / 0x1_0000_0000;
    assert a + 0x8000_0000 == (b + 0x8000_0000) + k * 0x1_0000_0000;
  }

  /** The exceptions thrown by the modelled members; the string is the
      parameter name the exception reports (`nameof(...)`).
      `NotComparable` is the `ArgumentException` of a comparison whose
      argument neither is text nor implements `IComparable`;
      `InvalidOperation`, `IndexOutOfRange` and `ReadOnlyBuffer` are
      `InvalidOperationException`, `IndexOutOfRangeException` and
      `ReadOnlyBufferException`. */
  datatype Error =
    | ArgumentNull(paramName: string)
    | ArgumentOutOfRange(paramName: string)
    | NotComparable(paramName: string)
    | InvalidOperation
    | IndexOutOfRange
    | ReadOnlyBuffer

  /** An `ICharSequence` reference: null, a non-null object whose `HasValue`
      is false (its `Length` is 0), or an object holding characters. */
  datatype CharSequence = NullSequence | Valueless | Chars(chars: Text) {

    predicate HasValue() { Chars? }

    /** `Length` of a non-null sequence; a valueless one reports 0. */
    function Length(): nat { if Chars? then |chars| else 0 }

    /** The code units reachable through `Length` and the indexer of a
        non-null sequence: none when it is valueless. */
    function Content(): (t: Text)
      ensures |t| == Length()
    {
      if Chars? then chars else []
    }

    /** The sequence seen the way most overloads see it: null and valueless
        alike are "no text". */
    function AsText(): (t: Option<Text>)
      ensures t.Some? <==> HasValue()
      ensures t.Some? ==> t.value == chars
    {
      if Chars? then Some(chars) else None
    }
  }

  /** A value passed as `object` to the comparer's untyped members.
      `CharSequenceObject` is a non-null `ICharSequence` of the library
      (`StringCharSequence`, `StringBuilderCharSequence`,
      `CharArrayCharSequence`); `None` there means it holds no value.
      `UserSequenceObject` is a non-null `ICharSequence` of any other type:
      its value, whether it implements `IComparable`, and what its own
      `GetHashCode()` returns. `OtherObject` is anything else, with the
      same two facts about it. */
  datatype TextObject =
    | NullObject
    | StringObject(s: Text)
    | StringBuilderObject(s: Text)
    | CharArrayObject(s: Text)
    | CharSequenceObject(value: Option<Text>)
    | UserSequenceObject(value: Option<Text>, comparable: bool, ownHashCode: Int32)
    | OtherObject(comparable: bool, ownHashCode: Int32)
  {
    /** The object is an `ICharSequence`, of the library or not. */
    predicate IsSequence() { CharSequenceObject? || UserSequenceObject? }

    /** The object is a `string`, a `StringBuilder` or a `char[]`. */
    predicate IsText() { StringObject? || StringBuilderObject? || CharArrayObject? }

    /** The object viewed as an `ICharSequence`, when it is one. */
    function AsSequence(): (c: CharSequence)
      requires IsSequence()
      ensures c.AsText() == value
    {
      if value.Some? then Chars(value.value) else Valueless
    }
  }
}
