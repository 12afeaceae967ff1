/**
  `ReadOnlyCharArrayBuffer` (J2N/IO/ReadOnlyCharArrayBuffer.cs): a
  read-only view over a `char[]` shared by reference. The view keeps the
  cursor state of its base class `CharArrayBuffer` (`capacity`, `limit`,
  `position`, `mark`) and the `offset` of its first character in the
  array. The views it builds share the array; every write entry point
  fails with `ReadOnlyBufferException`.

  `CharArrayBuffer` itself is not part of this model. Its constructor is
  taken to start a view at position 0 with the limit at the capacity and
  no mark, and `Remaining` to be `limit - position`, as in the buffers of
  Apache Harmony that the class comes from.
*/
module CharBuffers {
  import opened Wrappers
  import opened TextTypes

  /** The mark of a view on which no mark is set. */
  const UnsetMark := -1

  /** A mark is unset, or at most the position. */
  predicate MarkFits(mark: int, position: int) {
    mark == UnsetMark || 0 <= mark <= position
  }

  class ReadOnlyCharArrayBuffer {
    const capacity: int
    /** The characters, shared with every view built from this one. */
    const backingArray: array<Char16>
    /** Index in `backingArray` of the view's character 0. */
    const offset: int
    var limit: int
    var position: int
    var mark: int

    /** The cursor invariant of the base class, and the view inside its
        array. */
    ghost predicate Valid()
      reads this
    {
      && 0 <= position <= limit <= capacity
      && MarkFits(mark, position)
      && 0 <= offset && offset + capacity <= backingArray.Length
    }

    /** `Remaining`: the characters between the position and the limit. */
    function Remaining(): (n: int)
      reads this
      requires Valid()
      ensures 0 <= n <= capacity - position
    {
      limit - position
    }

    /** All characters of the view. */
    ghost function Contents(): (t: Text)
      reads this, backingArray
      requires Valid()
      ensures |t| == capacity
    {
      backingArray[offset..offset + capacity]
    }

    /** The characters from the position up to the limit. */
    ghost function RemainingContents(): (t: Text)
      reads this, backingArray
      requires Valid()
      ensures |t| == Remaining()
      ensures t == backingArray[offset + position..offset + limit]
    {
      SliceOfSlice(backingArray[..], offset, offset + capacity, position, limit);
      Contents()[position..limit]
    }

    /** The constructor: a view of `capacity` characters of `backingArray`
        from `arrayOffset` on, with the base class's fresh cursor. */
    constructor(capacity: int, backingArray: array<Char16>, arrayOffset: int)
      requires 0 <= capacity && 0 <= arrayOffset && arrayOffset + capacity <= backingArray.Length
      ensures Valid()
      ensures this.capacity == capacity && this.backingArray == backingArray && offset == arrayOffset
      ensures position == 0 && limit == capacity && mark == UnsetMark
    {
      this.capacity := capacity;
      this.backingArray := backingArray;
      offset := arrayOffset;
      limit := capacity;
      position := 0;
      mark := UnsetMark;
    }

    /** `Copy(other, markOfOther)`: a new view with the capacity, array,
        offset, limit and position of `other` and the given mark. */
    static method Copy(other: ReadOnlyCharArrayBuffer, markOfOther: int) returns (r: ReadOnlyCharArrayBuffer)
      requires other.Valid()
      ensures fresh(r)
      ensures r.capacity == other.capacity && r.backingArray == other.backingArray && r.offset == other.offset
      ensures r.limit == other.limit && r.position == other.position && r.mark == markOfOther
      ensures r.Valid() <==> MarkFits(markOfOther, other.position)
    {
      r := new ReadOnlyCharArrayBuffer(other.capacity, other.backingArray, other.offset);
      r.limit := other.limit;
      r.position := other.position;
      r.mark := markOfOther;
    }

    /** `Duplicate`: `Copy(this, mark)`, a view equal to this one in every
        field, over the same array. */
    method Duplicate() returns (r: ReadOnlyCharArrayBuffer)
      requires Valid()
      ensures fresh(r) && r.Valid()
      ensures r.capacity == capacity && r.backingArray == backingArray && r.offset == offset
      ensures r.limit == limit && r.position == position && r.mark == mark
      ensures r.Contents() == Contents() && r.RemainingContents() == RemainingContents()
    {
      r := Copy(this, mark);
    }

    /** `AsReadOnlyBuffer`: a view that is already read-only duplicates
        itself. */
    method AsReadOnlyBuffer() returns (r: ReadOnlyCharArrayBuffer)
      requires Valid()
      ensures fresh(r) && r.Valid()
      ensures r.capacity == capacity && r.backingArray == backingArray && r.offset == offset
      ensures r.limit == limit && r.position == position && r.mark == mark
    {
      r := Duplicate();
    }

    /** `Slice`: a new view over the remaining characters, sharing the
        array, whose character 0 is this view's character at the
        position. */
    method Slice() returns (r: ReadOnlyCharArrayBuffer)
      requires Valid()
      ensures fresh(r) && r.Valid()
      ensures r.capacity == Remaining() && r.backingArray == backingArray && r.offset == offset + position
      ensures r.position == 0 && r.limit == r.capacity && r.mark == UnsetMark
      ensures r.Contents() == RemainingContents() && r.RemainingContents() == RemainingContents()
    {
      r := new ReadOnlyCharArrayBuffer(Remaining(), backingArray, offset + position);
    }

    /** `Compact` writes to the view, so it fails. */
    method Compact() returns (r: Result<ReadOnlyCharArrayBuffer, Error>)
      ensures r == Failure(ReadOnlyBuffer)
    {
      r := Failure(ReadOnlyBuffer);
    }

    /** `IsReadOnly`. */
    function IsReadOnly(): (r: bool)
      ensures r
    {
      true
    }

    /** `ProtectedHasArray`: the array is not offered for writing. */
    function ProtectedHasArray(): (r: bool)
      ensures !r
    {
      false
    }

    /** Reading `ProtectedArray` fails. */
    function ProtectedArray(): (r: Result<array<Char16>, Error>)
      ensures r == Failure(ReadOnlyBuffer)
    {
      Failure(ReadOnlyBuffer)
    }

    /** Reading `ProtectedArrayOffset` fails. */
    function ProtectedArrayOffset(): (r: Result<int, Error>)
      ensures r == Failure(ReadOnlyBuffer)
    {
      Failure(ReadOnlyBuffer)
    }

    /** `Put(char)` fails. */
    method PutChar(value: Char16) returns (r: Result<ReadOnlyCharArrayBuffer, Error>)
      ensures r == Failure(ReadOnlyBuffer)
    {
      r := Failure(ReadOnlyBuffer);
    }

    /** `Put(int, char)` fails, whatever the index. */
    method PutAt(index: int, value: Char16) returns (r: Result<ReadOnlyCharArrayBuffer, Error>)
      ensures r == Failure(ReadOnlyBuffer)
    {
      r := Failure(ReadOnlyBuffer);
    }

    /** `Put(char[], int, int)` fails before looking at its arguments: a
        null array or a bad range also gives the read-only error. */
    method PutArray(source: Option<Text>, offset: int, length: int) returns (r: Result<ReadOnlyCharArrayBuffer, Error>)
      ensures r == Failure(ReadOnlyBuffer)
    {
      r := Failure(ReadOnlyBuffer);
    }

    /** `Put(CharBuffer)` fails, whatever the source. */
    method PutBuffer(src: ReadOnlyCharArrayBuffer?) returns (r: Result<ReadOnlyCharArrayBuffer, Error>)
      ensures r == Failure(ReadOnlyBuffer)
    {
      r := Failure(ReadOnlyBuffer);
    }

    /** `Put(string, int, int)` checks its arguments first: a null source,
        then a negative start, then a negative length, then a range past
        the end, and only valid arguments reach the read-only error. */
    method PutString(source: Option<Text>, startIndex: int, length: int) returns (r: Result<ReadOnlyCharArrayBuffer, Error>)
      ensures r.Failure?
      ensures r.error == ReadOnlyBuffer <==> source.Some? && ValidRange(|source.value|, startIndex, length)
      ensures source.None? ==> r.error == ArgumentNull("source")
      ensures source.Some? && startIndex < 0 ==> r.error == ArgumentOutOfRange("startIndex")
      ensures source.Some? && 0 <= startIndex && length < 0 ==> r.error == ArgumentOutOfRange("length")
      ensures source.Some? && 0 <= startIndex && 0 <= length && !ValidRange(|source.value|, startIndex, length) ==>
        r.error == ArgumentOutOfRange("length")
    {
      if source.None? {
        return Failure(ArgumentNull("source"));
      }
      var len := |source.value|;
      if startIndex < 0 {
        return Failure(ArgumentOutOfRange("startIndex"));
      }
      if length < 0 {
        return Failure(ArgumentOutOfRange("length"));
      }
      if startIndex > len - length {
        return Failure(ArgumentOutOfRange("length"));
      }
      return Failure(ReadOnlyBuffer);
    }
  }

  /** A slice of a slice is a slice of the whole. */
  lemma SliceOfSlice(s: Text, from: int, to: int, i: int, j: int)
    requires 0 <= from <= to <= |s| && 0 <= i <= j <= to - from
    ensures s[from..to][i..j] == s[from + i..from + j]
  {
    assert forall k :: 0 <= k < j - i ==> s[from..to][i..j][k] == s[from + i + k];
  }

  /** `startIndex` and `length` select a range of a text of length `len`. */
  predicate ValidRange(len: int, startIndex: int, length: int) {
    0 <= startIndex && 0 <= length && startIndex + length <= len
  }

  /** A view and its duplicate share one array: a write through the array
      is seen by both, and the original's cursor is untouched. */
  method DuplicateSharesArray(b: ReadOnlyCharArrayBuffer, index: int, c: Char16) returns (d: ReadOnlyCharArrayBuffer)
    requires b.Valid() && b.offset <= index < b.offset + b.capacity
    modifies b.backingArray
    ensures d.backingArray == b.backingArray && d.Valid()
    ensures d.Contents() == b.Contents() && d.Contents()[index - b.offset] == c
  {
    d := b.Duplicate();
    b.backingArray[index] := c;
  }

  /** A slice is already sliced: slicing a fresh slice gives a view equal
      to it in every field, over the same array. */
  method SliceTwice(b: ReadOnlyCharArrayBuffer) returns (s1: ReadOnlyCharArrayBuffer, s2: ReadOnlyCharArrayBuffer)
    requires b.Valid()
    ensures s1.Valid() && s2.Valid() && s1 != s2
    ensures s2.backingArray == s1.backingArray == b.backingArray
    ensures s2.capacity == s1.capacity && s2.offset == s1.offset
    ensures s2.limit == s1.limit && s2.position == s1.position && s2.mark == s1.mark
  {
    s1 := b.Slice();
    s2 := s1.Slice();
  }
}
