/** Numbers: hexadecimal text for bytes under two zero policies, the Luhn check digit of
    ISO/IEC 7812-1 (Annex B), and the count of decimal digits of a long. */
module Numbers {
  import opened JavaPrim

  // ---------------------------------------------------------------------------------------
  // Hexadecimal numerals: the reference meaning of the text the hex functions produce.
  // ---------------------------------------------------------------------------------------

  predicate IsHexDigit(c: char)
  {
    '0' <= c <= '9' || 'a' <= c <= 'f'
  }

  /** Lower-case hexadecimal text, the only alphabet Java's `%x` produces. */
  predicate IsLowerHex(s: string)
  {
    forall i :: 0 <= i < |s| ==> IsHexDigit(s[i])
  }

  /** The lower-case hex digit for a nibble. */
  function HexDigit(v: int): (c: char)
    requires 0 <= v < 16
    ensures IsHexDigit(c) && HexDigitValue(c) == v
  {
    if v < 10 then ('0' as int + v) as char else ('a' as int + v - 10) as char
  }

  function HexDigitValue(c: char): (v: int)
    requires IsHexDigit(c)
    ensures 0 <= v < 16
  {
    if c <= '9' then c as int - '0' as int else c as int - 'a' as int + 10
  }

  /** The number a hex numeral denotes, most significant digit first. */
  function HexValue(s: string): nat
    requires IsLowerHex(s)
  {
    if s == [] then 0 else HexValue(s[..|s| - 1]) * 16 + HexDigitValue(s[|s| - 1])
  }

  /** The unsigned number a byte sequence denotes, most significant byte first. */
  function BigEndianValue(bs: seq<bv8>): nat
  {
    if bs == [] then 0 else BigEndianValue(bs[..|bs| - 1]) * 256 + bs[|bs| - 1] as int
  }

  // ---------------------------------------------------------------------------------------
  // toHex(byte) and toHexWithZeros(byte)
  // ---------------------------------------------------------------------------------------

  /** toHex(byte): `String.format("%x", b)`. The formatter prints a negative Byte as its value
      plus 2^8, so the text is the unsigned value of the bit pattern, with no leading zero. */
  function ToHex(b: bv8): (r: string)
    ensures IsLowerHex(r) && HexValue(r) == b as int
    ensures |r| == (if b < 16 then 1 else 2)
    ensures r[0] == '0' ==> b == 0
  {
    ShortestHex(b as int)
  }

  /** The shortest lower-case hex numeral of a number below 256. */
  function ShortestHex(v: int): (r: string)
    requires 0 <= v < 256
    ensures IsLowerHex(r) && HexValue(r) == v
    ensures |r| == (if v < 16 then 1 else 2)
    ensures r[0] == '0' ==> v == 0
  {
    if v < 16 then
      DigitsValue(v, 0);
      [HexDigit(v)]
    else
      DigitsValue(v / 16, v % 16);
      [HexDigit(v / 16), HexDigit(v % 16)]
  }

  /** A single digit and a pair of digits as numerals. */
  lemma DigitsValue(hi: int, lo: int)
    requires 0 <= hi < 16 && 0 <= lo < 16
    ensures IsLowerHex([HexDigit(hi)]) && HexValue([HexDigit(hi)]) == hi
    ensures IsLowerHex([HexDigit(hi), HexDigit(lo)])
    ensures HexValue([HexDigit(hi), HexDigit(lo)]) == hi * 16 + lo
  {
    var one, two := [HexDigit(hi)], [HexDigit(hi), HexDigit(lo)];
    assert one[..0] == [];
    assert two[..1] == one;
  }

  /** toHexWithZeros(byte): always two hex digits, the high nibble first. */
  function ToHexWithZeros(b: bv8): (r: string)
    ensures |r| == 2 && r[0] == HexDigit(b as int / 16) && r[1] == HexDigit(b as int % 16)
    ensures IsLowerHex(r) && HexValue(r) == b as int
  {
    if b == 0 then "00"
    else
      var s := ToHex(b);
      if |s| == 1 then "0" + s else s
  }

  /** What toHexWithZeros(byte[]) builds for a non-null array: the padded text of every byte,
      in order. */
  function HexPadded(bs: seq<bv8>): (r: string)
    ensures |r| == 2 * |bs| && IsLowerHex(r)
  {
    if bs == [] then "" else HexPadded(bs[..|bs| - 1]) + ToHexWithZeros(bs[|bs| - 1])
  }

  /** The text with its leading '0' characters removed. */
  function StripZeros(s: string): (r: string)
    ensures |r| <= |s|
    ensures forall i :: 0 <= i < |s| - |r| ==> s[i] == '0'
    ensures r == [] || r[0] != '0'
  {
    if s != [] && s[0] == '0' then StripZeros(s[1..]) else s
  }

  /** The reference meaning of toHex(byte[]) on a non-empty array: the padded text without its
      leading zeros, or "0" when nothing is left. */
  function TrimmedHex(bs: seq<bv8>): string
  {
    var t := StripZeros(HexPadded(bs));
    if t == [] then "0" else t
  }

  /** The capacity `bytes.length * 2` that both array renderings pass to `new StringBuilder`: an
      int product, negative for 2^30 bytes or more, when the constructor throws
      NegativeArraySizeException. A Java array holds fewer than 2^31 elements. */
  method CheckCapacity(length: nat) returns (r: Result<()>)
    requires length < 0x8000_0000
    ensures r.Err? <==> length >= 0x4000_0000
    ensures r.Err? ==> r.error == NegativeArraySize
  {
    DoubledSize(length);
    if Wrap32(length * 2) < 0 {
      return Err(NegativeArraySize);
    }
    return Ok(());
  }

  /** toHexWithZeros(byte[]): NullPointerException for null, "" for an empty array,
      NegativeArraySizeException when the builder's capacity overflows, otherwise two hex digits
      per byte. */
  method ToHexWithZerosArray(bytes: array?<bv8>) returns (r: Result<string>)
    requires bytes == null || bytes.Length < 0x8000_0000
    ensures r.Err? <==> bytes == null || bytes.Length >= 0x4000_0000
    ensures r.Err? ==> r.error == (if bytes == null then NullPointer else NegativeArraySize)
    ensures r.Ok? ==> |r.value| == 2 * bytes.Length
    ensures r.Ok? ==>
      forall k :: 0 <= k < bytes.Length ==> r.value[2 * k..2 * k + 2] == ToHexWithZeros(bytes[k])
    ensures r.Ok? ==> r.value == HexPadded(bytes[..])
  {
    if bytes == null {
      return Err(NullPointer);
    }
    if bytes.Length == 0 {
      return Ok("");
    }
    var capacity := CheckCapacity(bytes.Length);
    if capacity.Err? {
      return Err(capacity.error);
    }
    var builder := "";
    for i := 0 to bytes.Length
      invariant builder == HexPadded(bytes[..i])
    {
      assert bytes[..i + 1][..i] == bytes[..i];
      builder := builder + ToHexWithZeros(bytes[i]);
    }
    assert bytes[..bytes.Length] == bytes[..];
    forall k | 0 <= k < bytes.Length
      ensures builder[2 * k..2 * k + 2] == ToHexWithZeros(bytes[k])
    {
      HexPaddedAt(bytes[..], k);
    }
    r := Ok(builder);
  }

  /** toHex(byte[]): NullPointerException for null, "" for an empty array,
      NegativeArraySizeException when the builder's capacity overflows; otherwise the loop skips
      the leading zero bytes, renders the first non-zero byte with toHex and every later byte with
      toHexWithZeros, and answers "0" if it rendered nothing. */
  method ToHexArray(bytes: array?<bv8>) returns (r: Result<string>)
    requires bytes == null || bytes.Length < 0x8000_0000
    ensures r.Err? <==> bytes == null || bytes.Length >= 0x4000_0000
    ensures r.Err? ==> r.error == (if bytes == null then NullPointer else NegativeArraySize)
    ensures r.Ok? && bytes.Length == 0 ==> r.value == ""
    ensures r.Ok? && bytes.Length > 0 ==> r.value == TrimmedHex(bytes[..])
  {
    if bytes == null {
      return Err(NullPointer);
    }
    if bytes.Length == 0 {
      return Ok("");
    }
    var capacity := CheckCapacity(bytes.Length);
    if capacity.Err? {
      return Err(capacity.error);
    }
    var builder := "";
    var nonZeroFound := false;
    ghost var bs := bytes[..];
    for i := 0 to bytes.Length
      invariant builder == StripZeros(HexPadded(bs[..i]))
      invariant nonZeroFound <==> builder != ""
    {
      var b := bytes[i];
      assert bs[..i + 1] == bs[..i] + [b];
      ScanStep(bs[..i], b);
      if !nonZeroFound {
        if b != 0 {
          builder := builder + ToHex(b);
          nonZeroFound := true;
        }
      } else {
        builder := builder + ToHexWithZeros(b);
      }
    }
    assert bs[..bytes.Length] == bs;
    if |builder| == 0 && bytes.Length > 0 {
      r := Ok("0");
    } else {
      r := Ok(builder);
    }
  }

  // ---------------------------------------------------------------------------------------
  // Lemmas about the hex text
  // ---------------------------------------------------------------------------------------

  /** Bytes k of the padded text are the padded text of byte k. */
  lemma {:induction false} HexPaddedAt(bs: seq<bv8>, k: int)
    requires 0 <= k < |bs|
    ensures HexPadded(bs)[2 * k..2 * k + 2] == ToHexWithZeros(bs[k])
  {
    var init := bs[..|bs| - 1];
    var front, last := HexPadded(init), ToHexWithZeros(bs[|bs| - 1]);
    assert HexPadded(bs) == front + last;
    if k < |bs| - 1 {
      HexPaddedAt(init, k);
      assert (front + last)[2 * k..2 * k + 2] == front[2 * k..2 * k + 2];
    } else {
      assert (front + last)[2 * k..2 * k + 2] == last;
    }
  }

  /** Padding distributes over concatenation of the byte sequences. */
  lemma {:induction false} HexPaddedAppend(a: seq<bv8>, b: seq<bv8>)
    ensures HexPadded(a + b) == HexPadded(a) + HexPadded(b)
    decreases |b|
  {
    if b != [] {
      var b' := b[..|b| - 1];
      assert (a + b)[..|a + b| - 1] == a + b';
      HexPaddedAppend(a, b');
    } else {
      assert a + b == a;
    }
  }

  /** Appending two digits multiplies the value by 256 and adds theirs. */
  lemma HexValueAppendPair(s: string, t: string)
    requires IsLowerHex(s) && IsLowerHex(t) && |t| == 2
    ensures IsLowerHex(s + t) && HexValue(s + t) == HexValue(s) * 256 + HexValue(t)
  {
    var st, s1 := s + t, s + t[..1];
    assert IsLowerHex(st) && IsLowerHex(s1);
    assert st[..|st| - 1] == s1;
    assert s1[..|s1| - 1] == s;
    assert HexValue(s1) == HexValue(s) * 16 + HexDigitValue(t[0]);
    assert HexValue(st) == HexValue(s1) * 16 + HexDigitValue(t[1]);
    assert HexValue(t) == HexDigitValue(t[0]) * 16 + HexDigitValue(t[1]) by {
      assert t[..1][..0] == [];
      assert HexValue(t[..1]) == HexDigitValue(t[0]);
    }
  }

  /** The padded text is a hex numeral for the big-endian value of the bytes. */
  lemma {:induction false} HexPaddedValue(bs: seq<bv8>)
    ensures HexValue(HexPadded(bs)) == BigEndianValue(bs)
  {
    if bs != [] {
      var init := bs[..|bs| - 1];
      HexPaddedValue(init);
      HexValueAppendPair(HexPadded(init), ToHexWithZeros(bs[|bs| - 1]));
    }
  }

  /** A leading zero digit does not change the value of a numeral. */
  lemma {:induction false} LeadingZeroValue(t: string)
    requires IsLowerHex(t)
    ensures IsLowerHex("0" + t) && HexValue("0" + t) == HexValue(t)
    decreases |t|
  {
    var s := "0" + t;
    if t == [] {
      assert s[..0] == [];
    } else {
      var t' := t[..|t| - 1];
      assert s[..|s| - 1] == "0" + t';
      LeadingZeroValue(t');
    }
  }

  /** Removing leading zeros keeps the value of a numeral. */
  lemma {:induction false} StripZerosValue(s: string)
    requires IsLowerHex(s)
    ensures IsLowerHex(StripZeros(s)) && HexValue(StripZeros(s)) == HexValue(s)
    decreases |s|
  {
    if s != [] && s[0] == '0' {
      assert s == "0" + s[1..];
      LeadingZeroValue(s[1..]);
      StripZerosValue(s[1..]);
    }
  }

  /** Stripping removes a prefix of zeros and keeps the rest: s is that prefix followed by the
      stripped text. */
  lemma {:induction false} StripZerosSplits(s: string)
    ensures s == s[..|s| - |StripZeros(s)|] + StripZeros(s)
    decreases |s|
  {
    if s != [] && s[0] == '0' {
      StripZerosSplits(s[1..]);
      var k := |s[1..]| - |StripZeros(s[1..])|;
      assert s[..k + 1] == [s[0]] + s[1..][..k];
    }
  }

  /** Once something is left after stripping, later text is kept as it is. */
  lemma {:induction false} StripZerosKeepsTail(s: string, t: string)
    requires StripZeros(s) != []
    ensures StripZeros(s + t) == StripZeros(s) + t
    decreases |s|
  {
    if s[0] == '0' {
      assert (s + t)[1..] == s[1..] + t;
      StripZerosKeepsTail(s[1..], t);
    }
  }

  /** Text that strips to nothing is all zeros, so it strips away in front of anything. */
  lemma {:induction false} StripZerosAfterZeros(s: string, t: string)
    requires StripZeros(s) == []
    ensures StripZeros(s + t) == StripZeros(t)
    decreases |s|
  {
    if s == [] {
      assert s + t == t;
    } else {
      assert (s + t)[1..] == s[1..] + t;
      StripZerosAfterZeros(s[1..], t);
    }
  }

  /** For a non-zero byte the two single-byte renderings differ only by the padding zero. */
  lemma StripPaddedByte(b: bv8)
    ensures b == 0 ==> StripZeros(ToHexWithZeros(b)) == []
    ensures b != 0 ==> StripZeros(ToHexWithZeros(b)) == ToHex(b)
  {
    var p := ToHexWithZeros(b);
    if b == 0 {
      assert p == "00";
      assert StripZeros(p[1..]) == StripZeros(p[2..]);
    } else if b < 16 {
      assert p == "0" + ToHex(b);
      assert StripZeros(p) == StripZeros(p[1..]);
      assert p[1..] == ToHex(b);
    }
  }

  /** One step of the scan in toHex(byte[]): while nothing has been rendered a zero byte adds
      nothing and a non-zero byte adds its trimmed text; afterwards every byte adds its padded
      text. */
  lemma ScanStep(p: seq<bv8>, b: bv8)
    ensures var before := StripZeros(HexPadded(p));
      StripZeros(HexPadded(p + [b])) ==
        if before != [] then before + ToHexWithZeros(b)
        else if b == 0 then []
        else ToHex(b)
  {
    assert (p + [b])[..|p|] == p;
    var padded := HexPadded(p);
    assert HexPadded(p + [b]) == padded + ToHexWithZeros(b);
    if StripZeros(padded) != [] {
      StripZerosKeepsTail(padded, ToHexWithZeros(b));
    } else {
      StripZerosAfterZeros(padded, ToHexWithZeros(b));
      StripPaddedByte(b);
    }
  }

  /** The padded text of zero bytes strips to nothing. */
  lemma {:induction false} StripZerosOfZeroBytes(bs: seq<bv8>)
    requires forall j :: 0 <= j < |bs| ==> bs[j] == 0
    ensures StripZeros(HexPadded(bs)) == []
    decreases |bs|
  {
    if bs != [] {
      var init := bs[..|bs| - 1];
      StripZerosOfZeroBytes(init);
      StripZerosAfterZeros(HexPadded(init), ToHexWithZeros(bs[|bs| - 1]));
      StripPaddedByte(bs[|bs| - 1]);
    }
  }

  /** The trimmed text is the shortest hex numeral of the big-endian value of the bytes: its
      value is that number and it has no leading zero unless it is "0". */
  lemma TrimmedHexValue(bs: seq<bv8>)
    ensures IsLowerHex(TrimmedHex(bs)) && HexValue(TrimmedHex(bs)) == BigEndianValue(bs)
    ensures TrimmedHex(bs) != [] && (TrimmedHex(bs)[0] == '0' ==> TrimmedHex(bs) == "0")
  {
    HexPaddedValue(bs);
    StripZerosValue(HexPadded(bs));
    assert HexValue("0") == 0 by {
      assert "0"[..0] == [];
    }
  }

  /** The scan of toHex(byte[]) as a state machine: leading zero bytes give nothing, the first
      non-zero byte is rendered trimmed and every later byte padded. */
  lemma TrimmedHexScan(bs: seq<bv8>, f: int)
    requires 0 <= f < |bs| && bs[f] != 0
    requires forall j :: 0 <= j < f ==> bs[j] == 0
    ensures TrimmedHex(bs) == ToHex(bs[f]) + HexPadded(bs[f + 1..])
  {
    var zeros, first, rest := bs[..f], bs[f], bs[f + 1..];
    var padFirst, padRest := ToHexWithZeros(first), HexPadded(rest);
    ghost var tail := padFirst + padRest;
    assert HexPadded(bs) == HexPadded(zeros) + tail by {
      assert bs == zeros + ([first] + rest);
      HexPaddedAppend(zeros, [first] + rest);
      HexPaddedAppend([first], rest);
      HexPaddedSingle(first);
    }
    assert StripZeros(HexPadded(bs)) == StripZeros(tail) by {
      assert forall j :: 0 <= j < |zeros| ==> zeros[j] == 0;
      StripZerosOfZeroBytes(zeros);
      StripZerosAfterZeros(HexPadded(zeros), tail);
    }
    StripPaddedByte(first);
    StripZerosKeepsTail(padFirst, padRest);
  }

  /** The padded text of a single byte is its two-digit rendering. */
  lemma HexPaddedSingle(b: bv8)
    ensures HexPadded([b]) == ToHexWithZeros(b)
  {
    assert [b][..0] == [];
  }

  /** A non-empty array of zero bytes is rendered "0". */
  lemma TrimmedHexOfZeros(bs: seq<bv8>)
    requires forall j :: 0 <= j < |bs| ==> bs[j] == 0
    ensures TrimmedHex(bs) == "0"
  {
    StripZerosOfZeroBytes(bs);
  }

  /** The single-byte examples the library's tests check. */
  lemma ByteHexExamples()
    ensures ToHex(0) == "0" && ToHex(1) == "1" && ToHex(15) == "f" && ToHex(127) == "7f"
    ensures ToHex(0xcc) == "cc"
    ensures ToHexWithZeros(0) == "00" && ToHexWithZeros(1) == "01" && ToHexWithZeros(15) == "0f"
    ensures ToHexWithZeros(0xcc) == "cc"
  {
  }

  /** The renderings of the bytes in the library's array examples. */
  lemma ExampleBytes()
    ensures ToHexWithZeros(0x01) == "01" && ToHexWithZeros(0x1f) == "1f" && ToHexWithZeros(0xcc) == "cc"
    ensures ToHexWithZeros(0x00) == "00"
    ensures ToHex(0x01) == "1"
  {
    assert HexDigit(0) == '0' && HexDigit(1) == '1' && HexDigit(15) == 'f' && HexDigit(12) == 'c';
  }

  /** The array examples the library's tests check. */
  lemma PaddedHexExample()
    ensures HexPadded([0x01, 0x1f, 0xcc]) == "011fcc"
  {
    var s: seq<bv8> := [0x01, 0x1f, 0xcc];
    assert s[..2] == [0x01, 0x1f] && s[..2][..1] == [0x01] && s[..2][..1][..0] == [];
    ExampleBytes();
    assert HexPadded(s[..2][..1]) == "01";
    assert HexPadded(s[..2]) == "011f";
  }

  lemma TrimmedHexExample()
    ensures TrimmedHex([0x01, 0x1f, 0xcc]) == "11fcc"
    ensures TrimmedHex([0x01, 0x1f, 0x00]) == "11f00"
  {
    TrimmedHexOfThree(0x01, 0x1f, 0xcc);
    TrimmedHexOfThree(0x01, 0x1f, 0x00);
    ExampleBytes();
  }

  /** Three bytes of which the first is not zero: the first trimmed, the other two padded. */
  lemma TrimmedHexOfThree(a: bv8, b: bv8, c: bv8)
    requires a != 0
    ensures TrimmedHex([a, b, c]) == ToHex(a) + ToHexWithZeros(b) + ToHexWithZeros(c)
  {
    var s := [a, b, c];
    assert s[1..] == [b, c];
    TrimmedHexScan(s, 0);
    HexPaddedPair(b, c);
  }

  /** The padded text of two bytes is their two-digit renderings in order. */
  lemma HexPaddedPair(b: bv8, c: bv8)
    ensures HexPadded([b, c]) == ToHexWithZeros(b) + ToHexWithZeros(c)
  {
    assert [b, c][..1] == [b];
    HexPaddedSingle(b);
  }

  lemma ZeroHexExample()
    ensures TrimmedHex([0x00, 0x00]) == "0"
  {
    TrimmedHexOfZeros([0x00, 0x00]);
  }

  // ---------------------------------------------------------------------------------------
  // Luhn check digit (ISO/IEC 7812-1, Annex B)
  // ---------------------------------------------------------------------------------------

  predicate IsDigits(s: string)
  {
    forall i :: 0 <= i < |s| ==> '0' <= s[i] <= '9'
  }

  /** `currentChar - 48`: the value of a decimal digit character. */
  function Digit(c: char): int
  {
    c as int - 48
  }

  /** The generator's weight for a digit at position i, counted from the right end starting at
      0: even positions are doubled, a doubled digit of 5 or more loses 9. `digit / 5` is Java's
      division, which agrees with Dafny's on the digits 0 to 9. */
  function Weight(digit: int, i: nat): int
  {
    if i % 2 == 0 then 2 * digit - digit / 5 * 9 else digit
  }

  /** The sum generateCheckDigit accumulates: every digit weighted by its position from the
      right end (s[0] stands at position |s| - 1). */
  function GeneratorSum(s: string): (r: int)
    requires IsDigits(s)
    ensures 0 <= r <= 9 * |s|
  {
    if s == [] then 0 else Weight(Digit(s[0]), |s| - 1) + GeneratorSum(s[1..])
  }

  /** The sum of the decimal digits of 2 * d, as the standard states the doubling step. */
  function DoubledDigitSum(d: int): int
  {
    2 * d / 10 + 2 * d % 10
  }

  /** The standard's validation sum: counting the rightmost digit (the check digit) as position
      1, every digit at an even position is replaced by the digit sum of its double. */
  function LuhnTotal(s: string): int
    requires IsDigits(s)
  {
    if s == [] then 0
    else (if |s| % 2 == 0 then DoubledDigitSum(Digit(s[0])) else Digit(s[0])) + LuhnTotal(s[1..])
  }

  /** A number with its check digit as the last character passes the standard's validation. */
  predicate LuhnValid(s: string)
    requires IsDigits(s)
  {
    LuhnTotal(s) % 10 == 0
  }

  /** What generateCheckDigit returns for a digit string with text: the final
      `(10 - (|sum| + 10) % 10) % 10`, the one digit that brings the sum to a multiple of ten. */
  function CheckDigit(number: string): (r: int)
    requires IsDigits(number)
    ensures 0 <= r < 10 && (GeneratorSum(number) + r) % 10 == 0
  {
    var sum := Abs(GeneratorSum(number)) + 10;
    CheckDigitCompletes(GeneratorSum(number));
    (10 - sum % 10) % 10
  }

  /** The final expression of generateCheckDigit, on a sum that is not negative, is a digit that
      completes the sum to a multiple of ten. */
  lemma CheckDigitCompletes(g: int)
    requires g >= 0
    ensures var r := (10 - (Abs(g) + 10) % 10) % 10; 0 <= r < 10 && (g + r) % 10 == 0
  {
    var q := g / 10;
    assert g == 10 * q + g % 10;
    assert (Abs(g) + 10) % 10 == g % 10;
  }

  /** generateCheckDigit: IllegalArgumentException for a string without text; otherwise the
      weighted digits are summed from the right end and the check digit derived from the sum. */
  method GenerateCheckDigit(number: string) returns (r: Result<int>)
    requires IsDigits(number)
    ensures r.Err? <==> number == []
    ensures r.Err? ==> r.error == IllegalArgument(NoText)
    ensures r.Ok? ==> r.value == CheckDigit(number)
  {
    // A string of decimal digits has text exactly when it is not empty.
    if number == [] {
      return Err(IllegalArgument(NoText));
    }
    var sum := 0;
    var n := |number|;
    for i := 0 to n
      invariant sum == GeneratorSum(number[n - i..])
    {
      var currentChar := number[n - i - 1];
      var digit := Digit(currentChar);
      var weight;
      if i % 2 == 0 {
        weight := 2 * digit - digit / 5 * 9;
      } else {
        weight := digit;
      }
      assert number[n - i - 1..][1..] == number[n - i..];
      sum := sum + weight;
    }
    assert number[0..] == number;
    sum := Abs(sum) + 10;
    r := Ok((10 - sum % 10) % 10);
  }

  /** hasValidCheckDigit: false for a string without text or shorter than two characters,
      otherwise whether the last digit is the check digit of the rest. That is exactly the
      standard's validation of the whole string. */
  function HasValidCheckDigit(number: string): (r: bool)
    requires IsDigits(number)
    ensures r <==> |number| >= 2 && LuhnValid(number)
  {
    // For a digit string, having text means being non-empty, and trim changes nothing.
    if |number| < 2 then false
    else
      var prefix, last := number[..|number| - 1], number[|number| - 1];
      assert number == prefix + [last];
      LuhnTotalAppend(prefix, last);
      CheckDigitUnique(GeneratorSum(prefix), CheckDigit(prefix), Digit(last));
      CheckDigit(prefix) == Digit(last)
  }

  /** Only one digit brings a sum to a multiple of ten. */
  lemma CheckDigitUnique(sum: int, a: int, b: int)
    requires 0 <= a < 10 && 0 <= b < 10 && (sum + a) % 10 == 0
    ensures (sum + b) % 10 == 0 <==> a == b
  {
    var q := (sum + a) / 10;
    assert sum + b == 10 * q + (b - a);
  }

  /** Java's `2 * digit - digit / 5 * 9` is the digit sum of the doubled digit. */
  lemma WeightIsDoubledDigitSum(d: int)
    requires 0 <= d <= 9
    ensures 2 * d - d / 5 * 9 == DoubledDigitSum(d)
  {
  }

  /** The generator's weight at position i is the standard's weight at position i + 2, counted
      from the left of a number one digit longer: both double exactly when the parity is even. */
  lemma WeightMatchesLuhn(d: int, i: nat)
    requires 0 <= d <= 9
    ensures Weight(d, i) == (if (i + 2) % 2 == 0 then DoubledDigitSum(d) else d)
  {
    WeightIsDoubledDigitSum(d);
  }

  /** The standard's total of a number followed by a digit c is c plus the generator's sum of
      the number: appending shifts every position by one. */
  lemma {:induction false} LuhnTotalAppend(p: string, c: char)
    requires IsDigits(p) && '0' <= c <= '9'
    ensures IsDigits(p + [c]) && LuhnTotal(p + [c]) == GeneratorSum(p) + Digit(c)
    decreases |p|
  {
    var s := p + [c];
    if p == [] {
      assert s == [c];
      assert s[1..] == [];
    } else {
      var d, rest := Digit(p[0]), p[1..];
      assert IsDigits(rest) by {
        forall i | 0 <= i < |rest|
          ensures '0' <= rest[i] <= '9'
        {
          assert rest[i] == p[i + 1];
        }
      }
      assert s[0] == p[0] && s[1..] == rest + [c];
      LuhnTotalAppend(rest, c);
      WeightMatchesLuhn(d, |p| - 1);
      assert LuhnTotal(s) == (if |s| % 2 == 0 then DoubledDigitSum(d) else d) + LuhnTotal(rest + [c]);
      assert GeneratorSum(p) == Weight(d, |p| - 1) + GeneratorSum(rest);
    }
  }

  /** The character for a digit value. */
  function DigitChar(v: int): (c: char)
    requires 0 <= v < 10
    ensures '0' <= c <= '9' && Digit(c) == v
  {
    (48 + v) as char
  }

  /** Appending its own check digit makes any non-empty digit string valid. */
  lemma CheckDigitValidates(p: string)
    requires IsDigits(p) && p != []
    ensures IsDigits(p + [DigitChar(CheckDigit(p))])
    ensures HasValidCheckDigit(p + [DigitChar(CheckDigit(p))])
  {
    var s := p + [DigitChar(CheckDigit(p))];
    assert s[..|s| - 1] == p;
  }

  // ---------------------------------------------------------------------------------------
  // digitCount
  // ---------------------------------------------------------------------------------------

  function Pow10(k: nat): (r: nat)
    ensures r >= 1
  {
    if k == 0 then 1 else 10 * Pow10(k - 1)
  }

  lemma MulMono(a: int, b: int, p: int)
    requires a <= b && p >= 0
    ensures a * p <= b * p
  {
  }

  /** One more round of digitCount's loop: if n is number divided by p, rounded down, then n / 10
      is number divided by 10 * p, rounded down. */
  lemma DropDigit(number: int, n: int, p: int)
    requires p >= 1 && n >= 0 && n * p <= number < (n + 1) * p
    ensures (n / 10) * (10 * p) <= number < (n / 10 + 1) * (10 * p)
  {
    var q := n / 10;
    assert 10 * q <= n && n + 1 <= 10 * q + 10;
    MulMono(10 * q, n, p);
    MulMono(n + 1, 10 * q + 10, p);
    assert q * (10 * p) == (10 * q) * p;
    assert (q + 1) * (10 * p) == (10 * q + 10) * p;
  }

  /** digitCount: a do-while loop that divides by ten (truncating) and counts the rounds. For
      n >= 0 the count is the number of decimal digits of n (0 has one); every negative n gives 1,
      because the first quotient is already <= 0. */
  method DigitCount(number: Int64) returns (st: int)
    ensures number < 0 ==> st == 1
    ensures number >= 0 ==> st >= 1 && number < Pow10(st) && (st == 1 || Pow10(st - 1) <= number)
  {
    var n: int := number;
    st := 0;
    // the body of the do-while, run once before the first test
    n := Quot(n, 10);
    st := st + 1;
    assert number >= 0 ==> n == number / 10;
    while n > 0
      invariant st >= 1
      invariant number < 0 ==> st == 1 && n <= 0
      invariant number >= 0 ==> n >= 0 && n * Pow10(st) <= number < (n + 1) * Pow10(st)
      invariant number >= 0 ==> st == 1 || Pow10(st - 1) <= number
      decreases n
    {
      var p := Pow10(st);
      MulMono(1, n, p);
      DropDigit(number, n, p);
      assert Quot(n, 10) == n / 10;
      n := Quot(n, 10);
      st := st + 1;
      assert Pow10(st) == 10 * p;
    }
    assert number >= 0 ==> n == 0;
  }

  lemma {:induction false} Pow10Mono(i: nat, j: nat)
    requires i <= j
    ensures Pow10(i) <= Pow10(j)
    decreases j - i
  {
    if i < j {
      Pow10Mono(i + 1, j);
    }
  }

  /** DigitCount's contract pins its result down: a count st that meets it for a number with
      Pow10(k - 1) <= number < Pow10(k) is k. */
  lemma DigitCountIs(number: int, st: int, k: nat)
    requires 1 <= k && Pow10(k - 1) <= number < Pow10(k)
    requires st >= 1 && number < Pow10(st) && (st == 1 || Pow10(st - 1) <= number)
    ensures st == k
  {
    if st < k {
      Pow10Mono(st, k - 1);
    } else if st > k {
      Pow10Mono(k, st - 1);
    }
  }

  /** The library's test vectors for digitCount. */
  method DigitCountExamples() returns (hundred: int, small: int, one: int, minusOne: int, zero: int, ten: int)
    ensures hundred == 3 && small == 3 && one == 1 && minusOne == 1 && zero == 1 && ten == 10
  {
    hundred := DigitCount(100);
    DigitCountIs(100, hundred, 3);
    small := DigitCount(123);
    DigitCountIs(123, small, 3);
    one := DigitCount(1);
    DigitCountIs(1, one, 1);
    minusOne := DigitCount(-1);
    zero := DigitCount(0);
    ten := DigitCount(1234567890);
    assert Pow10(9) == 1000000000 && Pow10(10) == 10000000000;
    DigitCountIs(1234567890, ten, 10);
  }
}
