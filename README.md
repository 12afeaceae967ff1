# J2N ordinal text, string interning and the read-only char buffer, in Dafny

This project models four parts of J2N, the .NET port of Java's text and I/O
conveniences:

- the ordinal members of `StringExtensions`, which are comparison, content
  equality, region matching, code-point search, prefix test and sub-sequence
  extraction on a `string`;
- `SimpleStringInterner`, the bounded-chain hash table behind
  `StringExtensions.Intern` when the runtime has no intern pool;
- `CharSequenceComparer.Ordinal`, the ordinal comparer over `ICharSequence`,
  `char[]`, `StringBuilder` and `string`, including the Harmony string hash;
- `CharArrayCharSequence`, an `ICharSequence` over a shared `char[]`;
- `ReadOnlyCharArrayBuffer`, a read-only cursor view over a shared `char[]`.

How the source's values are represented:

- A `char` is a UTF-16 code unit, `Char16`, and a text is a `seq<Char16>`.
- A `string`, `char[]` or `StringBuilder` argument is an `Option<Text>`, where
  `None` is null.
- An `ICharSequence` is a `CharSequence` value: null, present but without a
  value (`HasValue` false), or characters. The comparer treats null and
  valueless differently, so the model keeps them apart.
- Untyped `object` arguments are a `TextObject`. It keeps the library's own
  character sequences apart from an `ICharSequence` of any other type,
  because the comparer hashes the two kinds differently.
- Exceptions are the `Failure` side of a `Result`.
- Object identity is kept where the source relies on it:
  - the interner's strings and entries are objects;
  - the arrays behind `CharArrayCharSequence` and `ReadOnlyCharArrayBuffer`
    are Dafny arrays shared by reference.

Modules, one per file:

| file | module | contents |
|---|---|---|
| `Wrappers.dfy` | `Wrappers` | `Option` and `Result` |
| `TextTypes.dfy` | `TextTypes` | code units, texts, 32-bit wrap-around, errors, `CharSequence`, `TextObject` |
| `Ordinal.dfy` | `Ordinal` | the ordinal order and occurrence search that the rest is specified against |
| `Utf16.dfy` | `Utf16` | the surrogate-pair encoding of a code point (RFC 2781, section 2.1) |
| `StringExtensions.dfy` | `StringExtensions` | the `string` extension methods |
| `StringInterning.dfy` | `StringInterning` | `NextHighestPowerOfTwo` and `SimpleStringInterner` |
| `CharSequenceComparer.dfy` | `CharSequenceComparer` | the ordinal comparer |
| `CharArrayCharSequences.dfy` | `CharArrayCharSequences` | `CharArrayCharSequence` |
| `CharBuffers.dfy` | `CharBuffers` | `ReadOnlyCharArrayBuffer` |

The comparer is written as functions because it changes nothing. The
interner, the array copy in `CharArrayCharSequence.Subsequence`, the
compare and search loops of `StringExtensions`, and the buffer views are
written as methods over mutable state. Each of those methods is proved
against a specification function from `Ordinal`, `Utf16` or the comparer.

## Model

| member | source | states |
|---|---|---|
| Ordinal.CommonPrefixLength | src/J2N/Text/CharSequenceComparer.cs:423-431 | the length where the compare loop stops is the common prefix: both texts agree before it, and differ at it when both are long enough |
| Ordinal.Compare | src/J2N/Text/CharSequenceComparer.cs:420-431 | the ordinal difference of the first differing code units, or else of the lengths, is 0 exactly when the texts are equal |
| Ordinal.CommonPrefixLengthIs | src/J2N/Text/StringExtensions.cs:76-84 | an index where the texts first differ, or where one ends, is the common prefix length |
| Ordinal.CompareNullable | src/J2N/Text/StringExtensions.cs:105-121 | null sorts before any text and two nulls tie; the result is 0 exactly when both are null or both hold equal text |
| Ordinal.CommonPrefixLengthSymmetric | src/J2N/Text/CharSequenceComparer.cs:423-431 | the common prefix does not depend on the order of the operands |
| Ordinal.CompareAntisymmetric | src/J2N/Text/CharSequenceComparer.cs:420-431 | swapping the texts negates the ordinal comparison |
| Ordinal.CompareNullableAntisymmetric | src/J2N/Text/StringExtensions.cs:105-121 | swapping possibly-null texts negates the comparison |
| Ordinal.CompareUnfold | src/J2N/Text/CharSequenceComparer.cs:420-431 | the comparison is the lexicographic recursion on the first code unit |
| Ordinal.CompareTransitive | src/J2N/Text/CharSequenceComparer.cs:420-431 | the ordinal order is transitive, so it is a sort order |
| Ordinal.FirstOccurrence | src/J2N/Text/StringExtensions.cs:588-594 | the result is -1 or an occurrence at or after `from`, and no occurrence lies between `from` and the result |
| Ordinal.LastOccurrence | src/J2N/Text/StringExtensions.cs:822-828 | the result is -1 or an occurrence at or before `from`, and no occurrence lies between the result and `from` |
| Ordinal.FirstOccurrenceIs | src/J2N/Text/StringExtensions.cs:590-593 | the first occurrence found by a forward scan is the search result |
| Ordinal.FirstOccurrenceNone | src/J2N/Text/StringExtensions.cs:556-560 | with no occurrence from `from` on, the forward search gives -1 |
| Ordinal.LastOccurrenceIs | src/J2N/Text/StringExtensions.cs:824-827 | the first occurrence found by a backward scan is the search result |
| Ordinal.LastOccurrenceNone | src/J2N/Text/StringExtensions.cs:822-830 | with no occurrence at or before `from`, the backward search gives -1 |
| Ordinal.LastOccurrenceSkip | src/J2N/Text/StringExtensions.cs:821 | starting the backward search lower, past a stretch without occurrences, does not change its result |
| Utf16.HighSurrogate | src/J2N/Text/StringExtensions.cs:584-585 | the leading unit of a supplementary code point lies in 0xD800-0xDBFF |
| Utf16.LowSurrogate | src/J2N/Text/StringExtensions.cs:584-586 | the trailing unit lies in 0xDC00-0xDFFF |
| Utf16.ToChars | src/J2N/Text/StringExtensions.cs:584 | a code point has one code unit below 0x10000 and two above |
| Utf16.ToCharsRoundTrip | src/J2N/Text/StringExtensions.cs:584-586 | decoding the code units of a valid code point gives the code point back |
| Utf16.ToCharsInjective | src/J2N/Text/StringExtensions.cs:584-586 | distinct code points have distinct code units, so the pair search finds only the requested code point |
| StringExtensions.StringIndexOfChar | src/J2N/Text/StringExtensions.cs:566-567 | `String.IndexOf(char, int)`: a start outside `0..Length` throws; otherwise the first occurrence at or after the start |
| StringExtensions.StringLastIndexOfChar | src/J2N/Text/StringExtensions.cs:801 | `String.LastIndexOf(char, int)`: -1 on an empty string; otherwise a start outside the string throws, else the last occurrence at or before the start |
| StringExtensions.CompareCodeUnits | src/J2N/Text/StringExtensions.cs:76-84 | the compare loop computes the ordinal comparison `Ordinal.Compare` |
| StringExtensions.CompareToOrdinal | src/J2N/Text/StringExtensions.cs:105-121 | the `char[]` and `StringBuilder` overloads order null first, otherwise give the first code-unit difference or the length difference, and give 0 exactly when the contents are equal |
| StringExtensions.CompareToOrdinalSequence | src/J2N/Text/StringExtensions.cs:68-85 | the `ICharSequence` overload treats a valueless sequence as null, and gives 0 exactly when the contents are equal |
| StringExtensions.Contains | src/J2N/Text/StringExtensions.cs:224-235 | a null input throws `ArgumentNullException("input")`; otherwise the result says whether the code unit occurs |
| StringExtensions.RegionMatches | src/J2N/Text/StringExtensions.cs:1033-1057 | null text, then null other, throw; otherwise the result is true exactly when both ranges lie inside their texts and hold the same code units |
| StringExtensions.RegionMatchesSequence | src/J2N/Text/StringExtensions.cs:850-875 | the `ICharSequence` overload, where a valueless sequence has no code units |
| StringExtensions.RegionsMatchOccurs | src/J2N/Text/StringExtensions.cs:1049-1057 | matching a whole pattern at the start of the other text is an occurrence of the pattern |
| StringExtensions.RegionsMatchSymmetric | src/J2N/Text/StringExtensions.cs:1040-1057 | region matching is symmetric in the two texts |
| StringExtensions.ContentEquals | src/J2N/Text/StringExtensions.cs:373-447 | the result is true exactly when both are null or both hold the same code units |
| StringExtensions.ContentEqualsSequence | src/J2N/Text/StringExtensions.cs:343-357 | a valueless sequence counts as null; otherwise the result is true exactly when the contents are equal |
| StringExtensions.StartsWith | src/J2N/Text/StringExtensions.cs:1095-1103 | null text or prefix throws; otherwise the result says whether the prefix occurs at `startIndex` |
| StringExtensions.Subsequence | src/J2N/Text/StringExtensions.cs:1130-1145 | succeeds exactly for a null text or an in-range request; the error names the offending argument; the result holds the requested code units |
| StringExtensions.SubsequenceOfSubsequence | src/J2N/Text/StringExtensions.cs:1130-1145 | a sub-sequence of a sub-sequence is one sub-sequence with the offsets added |
| StringExtensions.IndexOfSupplementary | src/J2N/Text/StringExtensions.cs:580-597 | the first surrogate pair of the code point at or after the start, or -1 for an invalid code point |
| StringExtensions.IndexOf | src/J2N/Text/StringExtensions.cs:547-575 | a null text throws; otherwise the first occurrence of the code point's units from `max(start, 0)` on, or -1 for an invalid code point |
| StringExtensions.IndexOfFromStart | src/J2N/Text/StringExtensions.cs:501-504 | the search from index 0 |
| StringExtensions.LastIndexOfSupplementary | src/J2N/Text/StringExtensions.cs:814-831 | the last surrogate pair of the code point at or before `min(start, Length - 2)`, or -1 for an invalid code point |
| StringExtensions.LastIndexOfAsWritten | src/J2N/Text/StringExtensions.cs:791-809 | as written, the call throws exactly for a null text, or for a BMP code point with a non-empty text and a negative start; otherwise it gives the last occurrence |
| StringExtensions.LastIndexOf | src/J2N/Text/StringExtensions.cs:791-809 | as documented: a null text throws; otherwise the last occurrence of the code point's units at or before the start, and -1 for a negative start |
| StringExtensions.LastIndexOfFromEnd | src/J2N/Text/StringExtensions.cs:750-756 | the search back from the last code unit |
| StringExtensions.LastIndexOfNegativeStart | src/J2N/Text/StringExtensions.cs:801 | on "a" searched for 'a' from -1, the code as written throws where the documented result is -1 |
| StringInterning.SmearPositive | src/J2N/Text/StringExtensions.cs:670-675 | below 2^30, the shift-or steps plus one give the least power of two above the value |
| StringInterning.SmearHigh | src/J2N/Text/StringExtensions.cs:670-675 | from 2^30 to `int.MaxValue`, the steps fill all 31 low bits |
| StringInterning.SmearNegative | src/J2N/Text/StringExtensions.cs:670-675 | on a negative value, the arithmetic shifts fill all 32 bits |
| StringInterning.NextHighestPowerOfTwoBits | src/J2N/Text/StringExtensions.cs:667-677 | the decrement, the steps and the increment give 0 for 0, the least power of two not below the value from 1 to 2^30, `int.MinValue` above that, and 0 for other negatives |
| StringInterning.NextPowerOfTwoOfPowerOfTwo | src/J2N/Text/StringExtensions.cs:666 | a power of two is its own next highest power of two |
| StringInterning.NextPowerOfTwoBits | src/J2N/Text/StringExtensions.cs:667-677 | the result is the next highest power of two, as characterised above |
| StringInterning.NextHighestPowerOfTwo | src/J2N/Text/StringExtensions.cs:667-677 | the step-by-step method computes that function, and returns a power of two up to 2^30 unchanged |
| StringInterning.BucketCount | src/J2N/Text/StringExtensions.cs:661 | `Math.Max(1, size)` on the signed value of a 32-bit pattern |
| StringInterning.BucketCountFor | src/J2N/Text/StringExtensions.cs:661 | the constructor's bucket count is the table length for the requested size, and at least 1 |
| StringInterning.TableLengthIs | src/J2N/Text/StringExtensions.cs:659-663 | the bucket count is a power of two at least the table size and below twice it, for a table size from 1 to 2^30; it is 1 for any other table size |
| StringInterning.IndexOfText | src/J2N/Text/StringExtensions.cs:691-703 | the position of the first entry of a chain holding the text, or -1 when none does |
| StringInterning.Pushed | src/J2N/Text/StringExtensions.cs:705-711 | the new head comes first, followed by the old chain, whose last entry is dropped once the chain is full |
| StringInterning.PushedWellFormed | src/J2N/Text/StringExtensions.cs:705-711 | pushing an entry whose text is new to its bucket keeps every chain within `maxChainLength`, in its hash's bucket and free of duplicate texts |
| StringInterning.SimpleStringInterner.constructor | src/J2N/Text/StringExtensions.cs:659-663 | the table has `TableLength(tableSize)` empty buckets, and the chain limit is `max(2, maxChainLength)` |
| StringInterning.SimpleStringInterner.Intern | src/J2N/Text/StringExtensions.cs:680-715 | returns the pooled string with the same text and changes nothing, or pushes the argument at the head of its bucket and returns it; the table stays well formed, so no chain exceeds `maxChainLength` |
| StringInterning.SimpleStringInterner.InternTwice | src/J2N/Text/StringExtensions.cs:680-715 | two strings with the same text intern to the same instance |
| StringInterning.SimpleStringInterner.Lookup | src/J2N/Text/StringExtensions.cs:691-703 | the scan finds the first entry with the text, or reports the chain length and the entry before the last |
| StringInterning.SimpleStringInterner.Insert | src/J2N/Text/StringExtensions.cs:705-711 | the new entry heads the bucket, a full chain loses its last entry, and the links match the new chains |
| StringInterning.SimpleStringInterner.LinksAfterInsert | src/J2N/Text/StringExtensions.cs:705-711 | after the head insert and the cut at `nextToLast`, every entry links to its successor in its chain |
| StringInterning.SimpleStringInterner.ValidAfterInsert | src/J2N/Text/StringExtensions.cs:705-711 | a head insert of a text new to its bucket, with the cut at `nextToLast` when the chain is full, leaves the table well formed |
| StringInterning.ScanChain | src/J2N/Text/StringExtensions.cs:691-703 | walking the links from a bucket's head finds the first entry whose hash and text match, or returns the chain's length and the entry before its last |
| StringInterning.IndexOfTextIs | src/J2N/Text/StringExtensions.cs:693-697 | the entry where the scan returns is the first with the text |
| CharSequenceComparer.HashStep | src/J2N/Text/CharSequenceComparer.cs:613-616 | `c + ((hash << 5) - hash)` in unchecked arithmetic is `c + 31 * hash` reduced to 32 bits |
| CharSequenceComparer.HarmonyHash | src/J2N/Text/CharSequenceComparer.cs:606-618 | the hash loop computes the polynomial of the code units in base 31, reduced to 32 bits |
| CharSequenceComparer.StepAgrees | src/J2N/Text/CharSequenceComparer.cs:613-616 | one step of the loop on a 32-bit hash agrees, modulo 2^32, with the same step on the unreduced polynomial |
| CharSequenceComparer.HarmonyHashAppend | src/J2N/Text/CharSequenceComparer.cs:613-616 | hashing text extended by one code unit is one more step |
| CharSequenceComparer.GetHashCodeSequence | src/J2N/Text/CharSequenceComparer.cs:555-570 | `int.MaxValue` for null or valueless, 0 for empty, the reduced polynomial otherwise |
| CharSequenceComparer.GetHashCodeText | src/J2N/Text/CharSequenceComparer.cs:572-604 | `int.MaxValue` for null, the reduced polynomial otherwise |
| CharSequenceComparer.HashAgreesAcrossRepresentations | src/J2N/Text/CharSequenceComparer.cs:555-618 | a sequence, `char[]`, `StringBuilder` or `string` with the same characters hashes alike |
| CharSequenceComparer.EqualsImpl | src/J2N/Text/CharSequenceComparer.cs:544-553 | true exactly when the texts are equal |
| CharSequenceComparer.EqualsSequences | src/J2N/Text/CharSequenceComparer.cs:491-505 | null and valueless equal each other and nothing else; otherwise the result is true exactly when the contents are equal |
| CharSequenceComparer.EqualsText | src/J2N/Text/CharSequenceComparer.cs:507-542 | an absent sequence equals only null; otherwise the result is true exactly when the contents are equal |
| CharSequenceComparer.EqualsThenSameHash | src/J2N/Text/CharSequenceComparer.cs:491-570 | equal sequences have equal hash codes |
| CharSequenceComparer.EqualsTextThenSameHash | src/J2N/Text/CharSequenceComparer.cs:507-604 | a sequence equal to a text has the text's hash code |
| CharSequenceComparer.CompareText | src/J2N/Text/CharSequenceComparer.cs:434-450 | an absent sequence sorts with null; the result is 0 exactly when `Equals` holds |
| CharSequenceComparer.CompareSequences | src/J2N/Text/CharSequenceComparer.cs:416-432 | the consistent reading: an absent sequence sorts with null; the result is 0 exactly when `Equals` holds |
| CharSequenceComparer.CompareSequencesAntisymmetric | src/J2N/Text/CharSequenceComparer.cs:416-432 | swapping the sequences negates the comparison |
| CharSequenceComparer.CompareSequencesTransitive | src/J2N/Text/CharSequenceComparer.cs:416-432 | the comparison is transitive |
| CharSequenceComparer.CompareSequencesAsWritten | src/J2N/Text/CharSequenceComparer.cs:416-432 | as written, an absent `x` gives 0 unless `y` is valueless, and -1 then |
| CharSequenceComparer.CompareSequencesAsWrittenCounterexample | src/J2N/Text/CharSequenceComparer.cs:418 | as written, null ties with "a" while "a" sorts after null, and a valueless sequence sorts before itself |
| CharSequenceComparer.CompareWithStringAsWritten | src/J2N/Text/CharSequenceComparer.cs:452-468 | as written, a valueless `x` compares as the empty text |
| CharSequenceComparer.CompareWithStringAsWrittenCounterexample | src/J2N/Text/CharSequenceComparer.cs:454-455 | as written, a valueless sequence sorts after a null string that `Equals` calls equal to it |
| CharSequenceComparer.CompareWithStringBuilderAsWritten | src/J2N/Text/CharSequenceComparer.cs:470-489 | as written, a null `x` gives -1 whatever `y` is, and a valueless `x` compares as the empty text |
| CharSequenceComparer.CompareWithStringBuilderAsWrittenCounterexample | src/J2N/Text/CharSequenceComparer.cs:472 | as written, null sorts before null |
| CharSequenceComparer.CompareObjectsAsWritten | src/J2N/Text/CharSequenceComparer.cs:67-89 | one reference gives 0, null first; a character sequence of any type against a sequence, `string`, `StringBuilder` or `char[]` gives the typed overload for `y` as written; anything else calls `IComparable` or throws |
| CharSequenceComparer.CompareObjectsAsWrittenCounterexample | src/J2N/Text/CharSequenceComparer.cs:73-82 | as written, a valueless sequence ties with "a" while "a" sorts after it, and a valueless sequence ties with "" although untyped `Equals` calls them different |
| CharSequenceComparer.CompareObjects | src/J2N/Text/CharSequenceComparer.cs:67-89 | the consistent reading: the same dispatch into the consistent overloads; one reference gives 0, null first; a sequence against a sequence or text gives 0 exactly on equal contents; anything else calls `IComparable` or throws |
| CharSequenceComparer.CompareObjectsAntisymmetric | src/J2N/Text/CharSequenceComparer.cs:67-89 | in the consistent reading, the untyped comparison of two character sequences is antisymmetric |
| CharSequenceComparer.EqualsObjects | src/J2N/Text/CharSequenceComparer.cs:294-312 | one reference is equal, and exactly one null is unequal; a character sequence of any type against a sequence or text is equal exactly on equal contents; anything else calls the object's own `Equals` |
| CharSequenceComparer.EqualsObjectsAgreesWithCompare | src/J2N/Text/CharSequenceComparer.cs:67-89 | in the consistent reading, for a sequence against a sequence or text, untyped `Equals` holds exactly when untyped `Compare` gives 0 |
| CharSequenceComparer.GetHashCodeObjectAsWritten | src/J2N/Text/CharSequenceComparer.cs:360-379 | `int.MaxValue` for null; the text hash for text of any kind and for the library's three sequence types; the object's own hash code otherwise, a character sequence of another type included |
| CharSequenceComparer.EqualsObjectsHashMismatch | src/J2N/Text/CharSequenceComparer.cs:365-378 | as written, a sequence of a non-library type holding "a" with own hash 0 equals the string "a", whose hash is 97 |
| CharSequenceComparer.EqualsObjectsThenSameHashAsWritten | src/J2N/Text/CharSequenceComparer.cs:294-379 | as written, objects untyped `Equals` finds equal hash alike, provided neither is a sequence of a non-library type |
| CharSequenceComparer.GetHashCodeObject | src/J2N/Text/CharSequenceComparer.cs:360-379 | the consistent reading: every character sequence, whatever its type, is hashed by its characters; otherwise as written |
| CharSequenceComparer.EqualsObjectsThenSameHash | src/J2N/Text/CharSequenceComparer.cs:294-379 | in the consistent reading, any two objects untyped `Equals` finds equal hash alike |
| CharArrayCharSequences.CharArrayCharSequence.constructor | src/J2N/Text/CharArrayCharSequence.cs:42-46 | the wrapper keeps the array reference, and `HasValue` holds exactly when it is not null |
| CharArrayCharSequences.CharArrayCharSequence.AsText | src/J2N/Text/CharArrayCharSequence.cs:52-60 | the wrapper holds text exactly when `HasValue` holds |
| CharArrayCharSequences.CharArrayCharSequence.Length | src/J2N/Text/CharArrayCharSequence.cs:88-91 | 0 without an array, and the array's length otherwise |
| CharArrayCharSequences.CharArrayCharSequence.Get | src/J2N/Text/CharArrayCharSequence.cs:75-83 | without an array the indexer throws `InvalidOperationException`, and outside the array `IndexOutOfRangeException`; otherwise it returns the code unit |
| CharArrayCharSequences.CharArrayCharSequence.Subsequence | src/J2N/Text/CharArrayCharSequence.cs:114-133 | gives the same result and errors as the `string` extension; a null array or the whole range reuses the array, and any other range is copied into a fresh array of that length |
| CharArrayCharSequences.CharArrayCharSequence.EqualsSequence | src/J2N/Text/CharArrayCharSequence.cs:251-310 | true exactly when both are absent or both hold the same characters |
| CharArrayCharSequences.CharArrayCharSequence.EqualsWrapper | src/J2N/Text/CharArrayCharSequence.cs:272-280 | compared with another wrapper: true exactly when both are absent or both hold the same characters |
| CharArrayCharSequences.CharArrayCharSequence.EqualsText | src/J2N/Text/CharArrayCharSequence.cs:317-376 | a null array equals only null; otherwise the result is true exactly when the contents are equal |
| CharArrayCharSequences.CharArrayCharSequence.EqualsObject | src/J2N/Text/CharArrayCharSequence.cs:383-404 | null matches a wrapper without an array; text of any kind, and a character sequence of any type, matches on equal characters; other objects never match |
| CharArrayCharSequences.CharArrayCharSequence.GetHashCode | src/J2N/Text/CharArrayCharSequence.cs:410-417 | the comparer's hash of the array, which is the hash the comparer gives any representation of these characters |
| CharArrayCharSequences.CharArrayCharSequence.EqualsThenSameHash | src/J2N/Text/CharArrayCharSequence.cs:383-417 | a wrapper equal to any non-null object hashes as the comparer's consistent `GetHashCode(object)` hashes that object, and as the comparer as written does unless the object is a sequence of a non-library type |
| CharArrayCharSequences.CharArrayCharSequence.EqualOperator | src/J2N/Text/CharArrayCharSequence.cs:157-165 | two null or array-less operands are equal and one alone is not; otherwise the result is true exactly when the contents are equal |
| CharArrayCharSequences.CharArrayCharSequence.NotEqualOperator | src/J2N/Text/CharArrayCharSequence.cs:175-178 | the negation of `==` |
| CharArrayCharSequences.CharArrayCharSequence.EqualWithArray | src/J2N/Text/CharArrayCharSequence.cs:188-196 | wrapper against array: true exactly when both are absent or both hold the same characters |
| CharArrayCharSequences.CharArrayCharSequence.NotEqualWithArray | src/J2N/Text/CharArrayCharSequence.cs:206-209 | the negation |
| CharArrayCharSequences.CharArrayCharSequence.ArrayEqualWith | src/J2N/Text/CharArrayCharSequence.cs:219-227 | array against wrapper: true exactly when both are absent or both hold the same characters |
| CharArrayCharSequences.CharArrayCharSequence.ArrayNotEqualWith | src/J2N/Text/CharArrayCharSequence.cs:237-240 | the negation |
| CharArrayCharSequences.EqualOperatorsSymmetric | src/J2N/Text/CharArrayCharSequence.cs:157-227 | the mixed operators agree whichever side the array is on, and `==` on wrappers is symmetric |
| CharArrayCharSequences.SharedArrayWrite | src/J2N/Text/CharArrayCharSequence.cs:42-46 | a write to the wrapped array is seen through the wrapper, and two wrappers of one array stay equal |
| CharBuffers.ReadOnlyCharArrayBuffer.Remaining | src/J2N/IO/ReadOnlyCharArrayBuffer.cs:114 | `Remaining` lies between 0 and the room after the position |
| CharBuffers.ReadOnlyCharArrayBuffer.RemainingContents | src/J2N/IO/ReadOnlyCharArrayBuffer.cs:112-115 | the remaining characters are the array's characters from `offset + position` to `offset + limit` |
| CharBuffers.ReadOnlyCharArrayBuffer.constructor | src/J2N/IO/ReadOnlyCharArrayBuffer.cs:48-50 | a view of `capacity` characters of the array from `arrayOffset` on, with a fresh cursor |
| CharBuffers.ReadOnlyCharArrayBuffer.Copy | src/J2N/IO/ReadOnlyCharArrayBuffer.cs:38-46 | a new view with the capacity, array reference, offset, limit and position of the original and the given mark; it is valid exactly when that mark fits |
| CharBuffers.ReadOnlyCharArrayBuffer.Duplicate | src/J2N/IO/ReadOnlyCharArrayBuffer.cs:59 | a new view equal to this one in every field, over the same array, showing the same characters |
| CharBuffers.ReadOnlyCharArrayBuffer.AsReadOnlyBuffer | src/J2N/IO/ReadOnlyCharArrayBuffer.cs:52 | does not fail, and returns a duplicate |
| CharBuffers.ReadOnlyCharArrayBuffer.Slice | src/J2N/IO/ReadOnlyCharArrayBuffer.cs:112-115 | a new view over the same array with capacity `Remaining` and offset `offset + position`, whose contents are this view's remaining characters |
| CharBuffers.ReadOnlyCharArrayBuffer.Compact | src/J2N/IO/ReadOnlyCharArrayBuffer.cs:54-57 | fails with `ReadOnlyBufferException` and modifies nothing |
| CharBuffers.ReadOnlyCharArrayBuffer.IsReadOnly | src/J2N/IO/ReadOnlyCharArrayBuffer.cs:61 | always true |
| CharBuffers.ReadOnlyCharArrayBuffer.ProtectedHasArray | src/J2N/IO/ReadOnlyCharArrayBuffer.cs:74 | always false |
| CharBuffers.ReadOnlyCharArrayBuffer.ProtectedArray | src/J2N/IO/ReadOnlyCharArrayBuffer.cs:64-67 | reading it fails with `ReadOnlyBufferException` |
| CharBuffers.ReadOnlyCharArrayBuffer.ProtectedArrayOffset | src/J2N/IO/ReadOnlyCharArrayBuffer.cs:69-72 | reading it fails with `ReadOnlyBufferException` |
| CharBuffers.ReadOnlyCharArrayBuffer.PutChar | src/J2N/IO/ReadOnlyCharArrayBuffer.cs:76-79 | fails with `ReadOnlyBufferException` and modifies nothing |
| CharBuffers.ReadOnlyCharArrayBuffer.PutAt | src/J2N/IO/ReadOnlyCharArrayBuffer.cs:81-84 | fails with `ReadOnlyBufferException` whatever the index, and modifies nothing |
| CharBuffers.ReadOnlyCharArrayBuffer.PutArray | src/J2N/IO/ReadOnlyCharArrayBuffer.cs:86-89 | fails with `ReadOnlyBufferException` before looking at its arguments, and modifies nothing |
| CharBuffers.ReadOnlyCharArrayBuffer.PutBuffer | src/J2N/IO/ReadOnlyCharArrayBuffer.cs:91-94 | fails with `ReadOnlyBufferException` and modifies nothing |
| CharBuffers.ReadOnlyCharArrayBuffer.PutString | src/J2N/IO/ReadOnlyCharArrayBuffer.cs:96-110 | always fails: a null source, then a negative start, then a negative or overlong length, each with its argument error; only a valid range reaches `ReadOnlyBufferException` |
| CharBuffers.SliceOfSlice | src/J2N/IO/ReadOnlyCharArrayBuffer.cs:112-115 | a slice of a slice of the array is one slice with the offsets added |
| CharBuffers.DuplicateSharesArray | src/J2N/IO/ReadOnlyCharArrayBuffer.cs:59 | a view and its duplicate share one array, so a write to it shows through both |
| CharBuffers.SliceTwice | src/J2N/IO/ReadOnlyCharArrayBuffer.cs:112-115 | slicing a fresh slice gives a new view equal to it in every field, over the same array |

## Left out

- `string.GetHashCode` is the parameter `hashOf` of the interner, because the runtime's string hash is not part of this model.
- The interner computes its bucket as `h & (cache.Length - 1)`. The model writes it as `h % cache.Length`, which is the same number for a power-of-two length. The equivalence itself is not proved.
- `tableSize` of the interner is a 32-bit pattern (`bv32`). Index arguments elsewhere are unbounded integers. Every modelled guard is written in the source so that it cannot overflow, so nothing is lost on 32-bit arguments.
- The runtime `string.Intern` path (under `FEATURE_STRINGINTERN`) and the static `StringExtensions.Intern` wrapper are left out, because they call into the runtime.
- The `OrdinalIgnoreCase` and culture-dependent branches of `RegionMatches`, `ContentEquals` and `StartsWith` are left out, because they depend on culture data. The `comparisonType` argument is fixed to `Ordinal`.
- `GetBytes` is left out, because it delegates to `Encoding`.
- `AsCharSequence`, and the `ToString` members of `CharArrayCharSequence`, are left out, because they only wrap or copy.
- `CharArrayCharSequence.CompareTo` overloads are left out, because they call a `char[]` extension whose source is not part of this model.
- The first test of `CompareToOrdinal(string, ICharSequence)` returns 0 when the `string` is the same object as a `StringCharSequence`. A `string` never is, so the test is left out.
- `String.IndexOf(char, int)` and `String.LastIndexOf(char, int)` are runtime members. They appear as `StringIndexOfChar` and `StringLastIndexOfChar`, with their documented behaviour.
- `Character.ToChars` and `Character.IsValidCodePoint` are not part of this model. They appear as the UTF-16 encoding of RFC 2781, section 2.1, and the range check `0 <= codePoint <= 0x10FFFF`.
- `CharArrayBuffer` and `CharBuffer`, the base classes of the read-only buffer, are not part of this model. Their constructor is taken to start a view at position 0, with the limit at the capacity and no mark. `Remaining` is taken to be `limit - position`. Their other operations (`Flip`, `Clear`, relative `Get`, and so on) are left out.
- CharBuffers.ReadOnlyCharArrayBuffer.Copy: takes a read-only view as its source rather than any `CharArrayBuffer`, because the read-write buffer is not part of this model.
- CharSequenceComparer.CompareObjects: a call into an operand's own `IComparable.CompareTo` is the outcome `DelegatedToCompareTo`, not its result, because that code is outside the comparer. The same holds for `CompareObjectsAsWritten`.
- CharSequenceComparer.EqualsObjects: a call into the first operand's own `Equals(object)` is the outcome `DelegatedToEquals`, not its result, for the same reason.
- CharSequenceComparer.GetHashCodeObjectAsWritten: an object other than text or a library character sequence is represented only by the hash code its own `GetHashCode()` returns.
- CharSequenceComparer.EqualsObjectsThenSameHashAsWritten: excludes a sequence of a non-library type, because the comparer as written hashes it by its own hash code (see the findings).
- CharArrayCharSequences.CharArrayCharSequence.EqualsThenSameHash: against the comparer's hash as written it is stated only for objects that are not a sequence of a non-library type, for the same reason; against the consistent hash it holds for every object.
- StringExtensions.CompareToOrdinal: the `(string, string)` overload calls the runtime's `string.CompareOrdinal`, which promises only the sign of the result. The model gives it the exact difference of the other overloads.
- StringInterning.SimpleStringInterner.Intern: a null string is not modelled. The source throws `NullReferenceException` at `s.GetHashCode()` (src/J2N/Text/StringExtensions.cs:682), reached from the public `Intern` at lines 617-623. The model's `StringRef` argument is never null.
- The library's other `ICharSequence` types, `StringCharSequence` and `StringBuilderCharSequence`, appear only as `CharSequence` values. They are assumed to report length 0 when they hold no value, as `CharArrayCharSequence` does.
- A comment in `CharArrayCharSequence.GetHashCode` warns that its hash will not match that of `string`. The model proves that it equals the comparer's hash of any representation of the same characters.
- Thread safety of the interner, which the source claims for lockless use, is not modelled: every call runs alone.

## Findings

| source | as written | input that shows it | evidently intended | confidence | as-written member | corrected member |
|---|---|---|---|---|---|---|
| src/J2N/Text/CharSequenceComparer.cs:418 | for an absent `x`, returns 0 when `y` is null or has a value, and -1 otherwise | `x` null, `y` = "a" gives 0, while `x` = "a", `y` null gives 1; two valueless sequences give -1 | an absent `x` ties with an absent `y` and sorts before any value, as in the `char[]` overload and in `Equals` | high, not executed | CharSequenceComparer.CompareSequencesAsWritten, CharSequenceComparer.CompareSequencesAsWrittenCounterexample | CharSequenceComparer.CompareSequences |
| src/J2N/Text/CharSequenceComparer.cs:472-473 | a null `x` gives -1 even when `y` is null; a valueless `x` compares as empty text | `x` null, `y` null gives -1 | two nulls compare 0, and an absent `x` sorts with null | high, not executed | CharSequenceComparer.CompareWithStringBuilderAsWritten, CharSequenceComparer.CompareWithStringBuilderAsWrittenCounterexample | CharSequenceComparer.CompareText |
| src/J2N/Text/CharSequenceComparer.cs:454-455 | only a null `x` is tested, so a valueless `x` compares as empty text | `x` valueless, `y` null gives 1, while `Equals` calls them equal | a valueless `x` sorts with null, as in the `char[]` overload | medium, not executed | CharSequenceComparer.CompareWithStringAsWritten, CharSequenceComparer.CompareWithStringAsWrittenCounterexample | CharSequenceComparer.CompareText |
| src/J2N/Text/CharSequenceComparer.cs:73-82 | the untyped `Compare` dispatches to the typed overloads as written, so it inherits their handling of null and valueless sequences | `x` valueless, `y` = "a" gives 0 while `x` = "a", `y` valueless gives 1; `x` valueless, `y` = "" gives 0 while untyped `Equals` gives false | an absent sequence sorts before any value, and the result is 0 exactly when untyped `Equals` holds | high, not executed | CharSequenceComparer.CompareObjectsAsWritten, CharSequenceComparer.CompareObjectsAsWrittenCounterexample | CharSequenceComparer.CompareObjects |
| src/J2N/Text/CharSequenceComparer.cs:360-378 | only the library's three `ICharSequence` types are hashed by their characters; any other `ICharSequence` gets its own `GetHashCode()`, although untyped `Equals` (lines 300-309) compares it by its characters | a user `ICharSequence` holding "a" whose own hash is 0, against the string "a": `Equals` gives true, the hashes are 0 and 97 | every `ICharSequence` is hashed by its characters, so equal objects hash alike | medium, not executed | CharSequenceComparer.GetHashCodeObjectAsWritten, CharSequenceComparer.EqualsObjectsHashMismatch | CharSequenceComparer.GetHashCodeObject, CharSequenceComparer.EqualsObjectsThenSameHash |
| src/J2N/Text/StringExtensions.cs:801 | a BMP code point searches with `Math.Min(startIndex, text.Length - 1)`, which stays negative for a negative start, and `String.LastIndexOf(char, int)` throws on it | text "a", code point 'a', start -1 throws `ArgumentOutOfRangeException` | the documented behaviour: a negative start acts as -1, and the result is -1 | high, not executed | StringExtensions.LastIndexOfAsWritten, StringExtensions.LastIndexOfNegativeStart | StringExtensions.LastIndexOf |
