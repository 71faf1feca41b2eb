# jcaki Bytes and Numbers in Dafny

A model of two utility classes of the jcaki library, with proofs about them.

- `Bytes` converts between Java byte arrays and Java `int` and `short` values, in either byte order.
  - `toInt` reads four bytes as an int.
  - `toByteArray(int)` and `toByteArray(short)` write a value as bytes.
  - `toIntArray` and `toShortArray` decode a prefix of a byte array into words.
  - `toByteArray(short[])` encodes shorts as bytes.
  - `determineSize` checks the amount argument of the decoders.
  - `hexDump` prints the bytes as two-digit hex tokens in columns.
- `Numbers` renders bytes as lower-case hexadecimal in two ways:
  - trimmed: `toHex`, with no leading zeros;
  - padded: `toHexWithZeros`, two digits per byte.

  It also computes and checks Luhn check digits (ISO/IEC 7812-1, Annex B) and counts the decimal digits of a `long`.

The model has three modules:

- `JavaPrim` (java_prim.dfy) holds the Java semantics the two classes rely on:
  - exceptions as a `Result`;
  - `int` and `long` ranges;
  - division that truncates toward zero (`Quot`, `Rem`);
  - 32-bit wrap-around (`Wrap32`);
  - the widening and narrowing conversions between `byte` (`bv8`), `short` (`bv16`) and `int` (`bv32`).
- `Bytes` (bytes.dfy) holds the byte codec and the hex dump.
  - Each Java expression is written with its sign extension and masks spelled out.
  - Each conversion is proved against a reference definition, for example `ByteOf`, `IntToBytes`, `IntsOf`, `ShortsOf` and `ShortsToBytes`.
  - Round trips and the byte-order reversal are proved between these definitions. Sequence-level results go through generic lemmas about `Pairs`, `Quads` and `Flatten`, which work for any word codec.
- `Numbers` (numbers.dfy) holds the hex renderings, the Luhn check digit and `digitCount`.
  - The hex text is given a meaning through `HexValue`: the rendered text of a byte array is a numeral for its big-endian value.
  - The scan inside `toHex(byte[])` is proved to equal "the padded text with its leading zeros removed, or `0`".
  - The Java check-digit generator is proved to agree with the standard's validation sum.

The loops of the Java code are `method`s with `while` or `for` loops. Each is proved against these specification functions. Array-producing methods return fresh arrays, as the Java methods do.

Where the doc comments and the code disagree, the model follows the code:

- `digitCount(-12)` returns 1, not the 2 of the doc comment at trunk/src/org/jcaki/Numbers.java:161.
- `toShortArray` validates the amount with word size 4, not 2.
- `hexDump` prints the first token before `cc % columns` throws when `columns` is 0.

## Model

| member | source | states |
|---|---|---|
| JavaPrim.QuotRemSplit | trunk/src/org/jcaki/Numbers.java:168 | Java's `/` and `%` satisfy a == b*(a/b) + a%b; the remainder is smaller than the divisor in magnitude and never has the opposite sign to the dividend |
| JavaPrim.Wrap32 | trunk/src/org/jcaki/Bytes.java:167 | an overflowing int product is the int congruent to the exact product modulo 2^32 |
| JavaPrim.NarrowingKeepsLowBits | trunk/src/org/jcaki/Bytes.java:66-74 | the `(byte)` and `(short)` casts keep exactly the low 8 or 16 bits and drop nothing else |
| JavaPrim.ByteWideningKeepsValue | trunk/src/org/jcaki/Bytes.java:20-23 | widening a byte to int keeps its signed value, and casting back to byte gives the byte again |
| JavaPrim.ShortWideningUndone | trunk/src/org/jcaki/Bytes.java:89 | casting a widened short back to short gives the short; the high half of the widened int is the copied sign bit |
| Bytes.ToInt4 | trunk/src/org/jcaki/Bytes.java:42-54 | the masks discard the copied sign bits: big-endian makes b0 the most significant byte of the result and b3 the least, little-endian the reverse |
| Bytes.ToInt | trunk/src/org/jcaki/Bytes.java:16-30 | throws IllegalArgumentException exactly when the array does not hold four bytes; otherwise it gives the same int as the four-byte overload |
| Bytes.WordFromBytes | trunk/src/org/jcaki/Bytes.java:20-23 | an int is determined by its four bytes |
| Bytes.ReversedFour | trunk/src/org/jcaki/Bytes.java:115 | a four-element group reversed lists its elements from last to first |
| Bytes.ToInt4Reversed | trunk/src/org/jcaki/Bytes.java:113-115 | reading a group big-endian with its bytes passed in reverse is reading it little-endian |
| Bytes.IntToByteArray | trunk/src/org/jcaki/Bytes.java:63-77 | the fresh array holds the int's four bytes, most significant first for big-endian and least significant first for little-endian |
| Bytes.IntRoundTrip | trunk/src/org/jcaki/Bytes.java:16-77 | toInt of toByteArray(i) is i, in either byte order |
| Bytes.BytesRoundTrip | trunk/src/org/jcaki/Bytes.java:16-77 | toByteArray of toInt(four bytes) gives the four bytes back |
| Bytes.IntBytesReversed | trunk/src/org/jcaki/Bytes.java:63-77 | the big-endian bytes of an int are its little-endian bytes reversed |
| Bytes.ShortToByteArray | trunk/src/org/jcaki/Bytes.java:86-96 | the fresh array holds high then low byte for big-endian and low then high for little-endian |
| Bytes.ShortHalves | trunk/src/org/jcaki/Bytes.java:89-93 | `>>>` on the sign-extended short followed by the byte cast gives the high byte; the mask gives the low byte |
| Bytes.ShortBytesRoundTrip | trunk/src/org/jcaki/Bytes.java:148-150 | encoding the short that two bytes decode to gives the two bytes back, in either order |
| Bytes.ShortRoundTrip | trunk/src/org/jcaki/Bytes.java:86-96 | decoding the two bytes of a short gives the short back |
| Bytes.ShortBytesReversed | trunk/src/org/jcaki/Bytes.java:86-96 | the big-endian bytes of a short are its little-endian bytes reversed |
| Bytes.CodecExamples | test/org/jcaki/TestBytes.java:8-40 | `7E AC 8A 93` reads as 0x7EAC8A93 big-endian and 0x938AAC7E little-endian, through both overloads; 0x7EAC8A93 and 0x938AAC7E write as `7E AC 8A 93` or `93 8A AC 7E` in each order; 0x43AC and 0xAC43 write as `43 AC` or `AC 43` in each order |
| Bytes.DetermineSize | trunk/src/org/jcaki/Bytes.java:121-131 | succeeds exactly when order <= amount <= length and amount is a multiple of order, and then returns amount itself; AmountOutOfRange exactly when amount is out of range, SizeNotMultiple when it is in range but not a multiple |
| Bytes.Pairs | trunk/src/org/jcaki/Bytes.java:144-152 | one word per complete pair of elements |
| Bytes.Quads | trunk/src/org/jcaki/Bytes.java:109-117 | one word per complete group of four elements |
| Bytes.PairsAt | trunk/src/org/jcaki/Bytes.java:146-152 | word k is decoded from elements 2k and 2k+1 |
| Bytes.QuadsAt | trunk/src/org/jcaki/Bytes.java:111-117 | word k is decoded from elements 4k to 4k+3 |
| Bytes.PairsSnoc | trunk/src/org/jcaki/Bytes.java:146-152 | decoding one more pair appends one word |
| Bytes.QuadsSnoc | trunk/src/org/jcaki/Bytes.java:111-117 | decoding one more group of four appends one word |
| Bytes.FlattenSnoc | trunk/src/org/jcaki/Bytes.java:168-178 | encoding one more word appends its encoding |
| Bytes.FlattenPairsAt | trunk/src/org/jcaki/Bytes.java:168-178 | with two elements per word, elements 2j and 2j+1 are the encoding of word j |
| Bytes.PairsOfFlatten | trunk/src/org/jcaki/Bytes.java:142-180 | if the decoder inverts the encoder on every word, decoding the encoding of a word sequence returns it |
| Bytes.QuadsOfFlatten | trunk/src/org/jcaki/Bytes.java:107-119 | the same with four elements per word |
| Bytes.FlattenOfPairs | trunk/src/org/jcaki/Bytes.java:142-180 | if the encoder inverts the decoder on every pair, encoding the decoding of an even-length sequence returns it |
| Bytes.FlattenOfQuads | trunk/src/org/jcaki/Bytes.java:107-119 | the same with groups of four |
| Bytes.IntsOfAt | trunk/src/org/jcaki/Bytes.java:111-117 | int k of the decoded sequence is toInt of bytes 4k to 4k+3 |
| Bytes.IntsOfLittleEndian | trunk/src/org/jcaki/Bytes.java:115 | little-endian int k is the big-endian reading of the reversed group 4k to 4k+3 |
| Bytes.IntsRoundTrip | trunk/src/org/jcaki/Bytes.java:63-119 | decoding the bytes of a sequence of ints gives the ints back |
| Bytes.BytesToIntsRoundTrip | trunk/src/org/jcaki/Bytes.java:63-119 | encoding the ints that a multiple-of-four byte sequence decodes to gives the bytes back |
| Bytes.IntsOfStep | trunk/src/org/jcaki/Bytes.java:111-117 | one loop turn of toIntArray extends the decoded ints by the int of the next four bytes |
| Bytes.ToIntArray | trunk/src/org/jcaki/Bytes.java:107-119 | IllegalArgumentException exactly when amount is out of [4, length] or not a multiple of 4, with the fault that applies; otherwise a fresh array of the ints of the first amount bytes, so later bytes are ignored |
| Bytes.ArrayCodecExamples | test/org/jcaki/TestBytes.java:42-68 | the test vectors of toIntArray, toByteArray(short[]) and toShortArray in both byte orders |
| Bytes.ShortsOfAt | trunk/src/org/jcaki/Bytes.java:146-152 | short k of the decoded sequence is made of bytes 2k and 2k+1 in the given order |
| Bytes.ShortsToBytesAt | trunk/src/org/jcaki/Bytes.java:168-178 | the encoding has two bytes per short, and bytes 2j and 2j+1 are those of short j |
| Bytes.ShortsRoundTrip | trunk/src/org/jcaki/Bytes.java:142-180 | decoding the bytes of a sequence of shorts gives the shorts back |
| Bytes.BytesToShortsRoundTrip | trunk/src/org/jcaki/Bytes.java:142-180 | encoding the shorts that an even-length byte sequence decodes to gives the bytes back |
| Bytes.ShortsOfStep | trunk/src/org/jcaki/Bytes.java:146-152 | one loop turn of toShortArray extends the decoded shorts by the short of the next two bytes |
| Bytes.ToShortArray | trunk/src/org/jcaki/Bytes.java:142-154 | validates with word size 4, so it fails exactly when amount is out of [4, length] or not a multiple of 4; otherwise a fresh array of the amount/2 shorts of the first amount bytes |
| Bytes.ShortArrayToByteArray | trunk/src/org/jcaki/Bytes.java:165-180 | for amount >= 0, a fresh array of the bytes of the first min(amount, length) shorts, and no complaint when amount exceeds the length; NegativeArraySizeException exactly when the int `size * 2` is negative; an amount below -2^30 gives a wrapped-round array of zeros |
| Bytes.PutShorts | trunk/src/org/jcaki/Bytes.java:168-178 | the loop writes the bytes of the first n shorts to the front of the result and leaves the rest untouched |
| Bytes.SplitShort | trunk/src/org/jcaki/Bytes.java:169-170 | the two casts give the high and the low byte of the short |
| Bytes.PutShortsStep | trunk/src/org/jcaki/Bytes.java:171-177 | writing one short's bytes after the bytes of the shorts before it extends the encoding by that short |
| JavaPrim.DoubledSize | trunk/src/org/jcaki/Bytes.java:166-167 | the int `size * 2` is exact for sizes in [0, 2^30), wraps up by 2^32 below -2^30, and is negative exactly for sizes in [-2^30, 0) or from 2^30 on |
| Bytes.SeparatorEveryColumns | trunk/src/org/jcaki/Bytes.java:188-190 | a line break follows the n-th token exactly when n is a multiple of abs(columns), so a negative column count acts like its absolute value |
| Bytes.DumpAt | trunk/src/org/jcaki/Bytes.java:185-191 | the dump holds two items per byte: the byte's padded hex token at 2k and its separator at 2k+1 |
| Bytes.HexDump | trunk/src/org/jcaki/Bytes.java:182-192 | ArithmeticException exactly when columns is 0 and the array is not empty, after the first token; otherwise it prints every token with its separator; an empty array prints nothing |
| Numbers.HexDigit | trunk/src/org/jcaki/Numbers.java:62 | the digit character for a nibble is a lower-case hex digit that denotes that nibble |
| Numbers.HexDigitValue | trunk/src/org/jcaki/Numbers.java:62 | a hex digit denotes a nibble |
| Numbers.ToHex | trunk/src/org/jcaki/Numbers.java:61-63 | a lower-case hex numeral for the unsigned value of the byte: one digit below 16 and two otherwise, with a leading zero only for 0 |
| Numbers.ShortestHex | trunk/src/org/jcaki/Numbers.java:62 | `%x` of a number below 256: a lower-case numeral for it, one digit below 16 and two otherwise, with a leading zero only for 0 |
| Numbers.DigitsValue | trunk/src/org/jcaki/Numbers.java:62 | one hex digit, and two hex digits high then low, denote the nibble and 16*high + low |
| Numbers.ToHexWithZeros | trunk/src/org/jcaki/Numbers.java:41-49 | always two digits, the high nibble then the low nibble, denoting the byte's unsigned value |
| Numbers.HexPadded | trunk/src/org/jcaki/Numbers.java:108-116 | two lower-case hex digits per byte |
| Numbers.StripZeros | trunk/src/org/jcaki/Numbers.java:66 | removes only leading '0' characters, and what is left does not start with '0' |
| Numbers.CheckCapacity | trunk/src/org/jcaki/Numbers.java:79 | the builder capacity `bytes.length * 2` overflows, and NegativeArraySizeException is thrown, exactly for 2^30 bytes or more |
| Numbers.ToHexWithZerosArray | trunk/src/org/jcaki/Numbers.java:108-116 | NullPointerException exactly for null, NegativeArraySizeException exactly for 2^30 bytes or more; otherwise 2n characters, and characters 2k and 2k+1 are the padded rendering of byte k |
| Numbers.ToHexArray | trunk/src/org/jcaki/Numbers.java:76-96 | NullPointerException exactly for null, NegativeArraySizeException exactly for 2^30 bytes or more, "" for an empty array, and otherwise the padded text with its leading zeros removed, or "0" |
| Numbers.HexPaddedAt | trunk/src/org/jcaki/Numbers.java:112-114 | characters 2k and 2k+1 of the padded text render byte k |
| Numbers.HexPaddedAppend | trunk/src/org/jcaki/Numbers.java:112-114 | the padded text of a concatenation is the concatenation of the padded texts |
| Numbers.HexValueAppendPair | trunk/src/org/jcaki/Numbers.java:113 | appending two digits multiplies the value by 256 and adds theirs |
| Numbers.HexPaddedValue | trunk/src/org/jcaki/Numbers.java:108-116 | the padded text is a hex numeral for the big-endian value of the bytes |
| Numbers.LeadingZeroValue | trunk/src/org/jcaki/Numbers.java:66 | a leading zero digit does not change a numeral's value |
| Numbers.StripZerosValue | trunk/src/org/jcaki/Numbers.java:66 | removing leading zeros keeps a numeral's value |
| Numbers.StripZerosSplits | trunk/src/org/jcaki/Numbers.java:66 | a text is its stripped zero prefix followed by what stripping keeps |
| Numbers.StripZerosKeepsTail | trunk/src/org/jcaki/Numbers.java:89 | once something survives stripping, later text is kept as it is |
| Numbers.StripZerosAfterZeros | trunk/src/org/jcaki/Numbers.java:82-87 | text that strips to nothing also strips away in front of anything |
| Numbers.StripPaddedByte | trunk/src/org/jcaki/Numbers.java:41-49 | a zero byte's padded text strips to nothing; a non-zero byte's strips to its trimmed text |
| Numbers.ScanStep | trunk/src/org/jcaki/Numbers.java:81-90 | one loop turn: a zero byte adds nothing while nothing was rendered, the first non-zero byte adds its trimmed text, and every later byte adds its padded text |
| Numbers.StripZerosOfZeroBytes | trunk/src/org/jcaki/Numbers.java:91-93 | the padded text of zero bytes strips to nothing |
| Numbers.TrimmedHexValue | trunk/src/org/jcaki/Numbers.java:65-96 | toHex of a byte array is the shortest hex numeral of the big-endian value: its value is that number and it has no leading zero unless it is "0" |
| Numbers.TrimmedHexScan | trunk/src/org/jcaki/Numbers.java:81-90 | leading zero bytes give nothing, the first non-zero byte is rendered trimmed, and every later byte padded |
| Numbers.HexPaddedPair | trunk/src/org/jcaki/Numbers.java:112-114 | the padded text of two bytes is their two-digit renderings in order |
| Numbers.HexPaddedSingle | trunk/src/org/jcaki/Numbers.java:113 | the padded text of one byte is its two-digit rendering |
| Numbers.TrimmedHexOfZeros | trunk/src/org/jcaki/Numbers.java:91-93 | a non-empty array of zero bytes renders as "0" |
| Numbers.ByteHexExamples | trunk/test/org/jcaki/NumbersTest.java:14-18 | 0, 1, 15, 127 and 0xcc render as "0", "1", "f", "7f", "cc" trimmed and "00", "01", "0f", "cc" padded |
| Numbers.ExampleBytes | trunk/test/org/jcaki/NumbersTest.java:37-41 | the renderings of the bytes that the array tests use |
| Numbers.PaddedHexExample | trunk/test/org/jcaki/NumbersTest.java:46 | {01, 1f, cc} renders as "011fcc" padded |
| Numbers.TrimmedHexExample | trunk/test/org/jcaki/NumbersTest.java:23-24 | {01, 1f, cc} renders as "11fcc" and {01, 1f, 00} as "11f00" |
| Numbers.TrimmedHexOfThree | trunk/src/org/jcaki/Numbers.java:81-90 | three bytes whose first is non-zero render as the first trimmed and the other two padded |
| Numbers.ZeroHexExample | trunk/test/org/jcaki/NumbersTest.java:22 | {00, 00} renders as "0" |
| Numbers.GeneratorSum | trunk/src/org/jcaki/Numbers.java:128-139 | the weighted sum lies between 0 and 9 per digit |
| Numbers.CheckDigit | trunk/src/org/jcaki/Numbers.java:140-141 | a digit from 0 to 9 that brings the weighted sum to a multiple of ten |
| Numbers.CheckDigitCompletes | trunk/src/org/jcaki/Numbers.java:140-141 | `(10 - (abs(sum) + 10) % 10) % 10` on a non-negative sum is a digit that completes the sum to a multiple of ten |
| Numbers.GenerateCheckDigit | trunk/src/org/jcaki/Numbers.java:125-142 | IllegalArgumentException exactly for a string without text; otherwise the loop from the right end returns the check digit of the weighted sum |
| Numbers.HasValidCheckDigit | trunk/src/org/jcaki/Numbers.java:151-158 | true exactly when the string has at least two digits and passes the standard's Luhn validation: total of all digits, every second one from the right doubled, is a multiple of ten |
| Numbers.CheckDigitUnique | trunk/src/org/jcaki/Numbers.java:154-157 | only one digit brings a sum to a multiple of ten |
| Numbers.WeightIsDoubledDigitSum | trunk/src/org/jcaki/Numbers.java:134 | `2*digit - digit/5*9` is the digit sum of the doubled digit |
| Numbers.WeightMatchesLuhn | trunk/src/org/jcaki/Numbers.java:133-137 | the generator's weight at position i from the right is the standard's weight for that digit once a check digit is appended |
| Numbers.LuhnTotalAppend | trunk/src/org/jcaki/Numbers.java:129-139 | the standard's total of a number followed by a digit c is the generator's sum of the number plus c |
| Numbers.DigitChar | trunk/src/org/jcaki/Numbers.java:156 | the character for a digit value is a decimal digit denoting it |
| Numbers.CheckDigitValidates | trunk/src/org/jcaki/Numbers.java:151-158 | any non-empty digit string with its own check digit appended is valid |
| Numbers.Pow10 | trunk/src/org/jcaki/Numbers.java:165-172 | powers of ten are positive |
| Numbers.MulMono | trunk/src/org/jcaki/Numbers.java:168 | arithmetic helper of DropDigit and DigitCount: multiplying by a non-negative number keeps order |
| Numbers.DropDigit | trunk/src/org/jcaki/Numbers.java:168 | one more division by ten divides the number by the next power of ten, rounded down |
| Numbers.DigitCount | trunk/src/org/jcaki/Numbers.java:165-172 | for n >= 0 the smallest st >= 1 with n < 10^st, the number of decimal digits (0 has one); 1 for every negative n |
| Numbers.Pow10Mono | trunk/src/org/jcaki/Numbers.java:165-172 | helper of DigitCountIs: powers of ten grow with the exponent |
| Numbers.DigitCountIs | trunk/src/org/jcaki/Numbers.java:165-172 | DigitCount's contract determines the count: for 10^(k-1) <= n < 10^k it is k |
| Numbers.DigitCountExamples | trunk/test/org/jcaki/NumbersTest.java:58-63 | digitCount gives 3 for 100 and 123, 1 for 1, -1 and 0, and 10 for 1234567890 |

## Left out

- Null arrays passed to the `Bytes` methods (a NullPointerException in Java): every `Bytes` method takes a non-null array. The null cases of `toHex(byte[])` and `toHexWithZeros(byte[])` are modelled.
- Bytes.HexDump: the `PrintStream` and the `OutputStream` are I/O. The model returns the sequence of `print` and `println` calls, with the platform line separator as one abstract `LineBreak` item.
- Numbers.ToHex: the machinery of `String.format("%x", b)` is not part of this model, only its result (the unsigned value of the byte in lower-case hex).
- `Preconditions.checkNotNull`, `Preconditions.checkArgument`, `Strings.hasText` and `Strings.EMPTY_STRING` are not part of this model. Only their effects are modelled: NullPointerException on null, IllegalArgumentException when there is no text, and "".
- Numbers.GenerateCheckDigit: requires a string of decimal digits. Other characters, including whitespace, and null strings are not modelled. For a digit string, having text means being non-empty.
- Numbers.GenerateCheckDigit: the int `sum` is taken as unbounded. It could overflow only for strings of more than 200 million digits.
- Numbers.HasValidCheckDigit: requires a string of decimal digits. `trim()` and whitespace-only strings are not modelled, because trim changes nothing in a digit string.
- JavaPrim.ShortWideningUndone: states the bit-level facts about the sign-extended short. It does not state that the widened int's signed value equals the short's.
- test/org/jcaki/FilesTest.java, test/org/jcaki/KeyValueReaderTest.java and trunk/test/org/jcaki/CountingSetTest.java test classes that are not part of this model: `Files`, `KeyValueReader` and `CountingSet`.
- The test at test/org/jcaki/TestBytes.java:71-74 only prints a dump and asserts nothing, so it has no counterpart.
- The longer array test vectors at trunk/test/org/jcaki/NumbersTest.java:25 and 48 are not stated as lemmas. They follow from Numbers.TrimmedHexScan and Numbers.HexPaddedAt.
