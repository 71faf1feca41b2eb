/** The parts of Java's primitive semantics that Bytes and Numbers rely on: exceptions as
    results, the fixed widths of int and long, division that truncates toward zero, and the
    widening and narrowing conversions between byte (bv8), short (bv16) and int (bv32). */
module JavaPrim {

  /** Which argument check threw an IllegalArgumentException. */
  datatype Fault =
    | WrongLength       // toInt: the array does not hold exactly four bytes
    | AmountOutOfRange  // determineSize: amount below the word size or above the array length
    | SizeNotMultiple   // determineSize: the size is not a multiple of the word size
    | NoText            // generateCheckDigit: the number string has no text

  datatype Exception =
    | IllegalArgument(fault: Fault)
    | NullPointer
    | Arithmetic          // integer division or remainder by zero
    | NegativeArraySize

  /** A call that returns a value or throws. */
  datatype Result<T> = Ok(value: T) | Err(error: Exception)

  datatype Option<T> = None | Some(value: T)

  /** Values of Java's `int` and `long` seen as mathematical integers. */
  type Int32 = x: int | -0x8000_0000 <= x < 0x8000_0000
  type Int64 = x: int | -0x8000_0000_0000_0000 <= x < 0x8000_0000_0000_0000

  function Abs(x: int): nat
  {
    if x < 0 then -x else x
  }

  /** Java's `a / b` on int and long: the exact quotient rounded toward zero. */
  function Quot(a: int, b: int): int
    requires b != 0
  {
    if (a >= 0) == (b > 0) then Abs(a) / Abs(b) else -(Abs(a) / Abs(b))
  }

  /** Java's `a % b`: the remainder that goes with Quot, so it takes the sign of the dividend
      (Dafny's own `%` never returns a negative number). */
  function Rem(a: int, b: int): int
    requires b != 0
  {
    if a >= 0 then Abs(a) % Abs(b) else -(Abs(a) % Abs(b))
  }

  /** Quot and Rem split a as Java does: a == b * (a / b) + a % b, the remainder smaller than
      the divisor in magnitude and never of the opposite sign to the dividend. */
  lemma QuotRemSplit(a: int, b: int)
    requires b != 0
    ensures a == b * Quot(a, b) + Rem(a, b)
    ensures Abs(Rem(a, b)) < Abs(b)
    ensures Rem(a, b) == 0 || (Rem(a, b) > 0 <==> a > 0)
  {
  }

  /** The result of an int computation that overflowed: the value congruent to x modulo 2^32. */
  function Wrap32(x: int): (r: Int32)
    ensures (r - x) % 0x1_0000_0000 == 0
  {
    var m := x % 0x1_0000_0000;
    if m < 0x8000_0000 then m else m - 0x1_0000_0000
  }

  /** The int `size * 2` for every int size: exact on [0, 2^30), negative on [-2^30, 0) and from
      2^30 on, and wrapped round by 2^32 below -2^30. */
  lemma DoubledSize(size: Int32)
    ensures 0 <= size < 0x4000_0000 ==> Wrap32(size * 2) == 2 * size
    ensures size < -0x4000_0000 ==> Wrap32(size * 2) == 2 * size + 0x1_0000_0000
    ensures Wrap32(size * 2) < 0 <==> -0x4000_0000 <= size < 0 || size >= 0x4000_0000
  {
    if size >= 0x4000_0000 {
      assert (size * 2) % 0x1_0000_0000 == size * 2;
    } else if size >= 0 {
      assert (size * 2) % 0x1_0000_0000 == size * 2;
    } else if size >= -0x4000_0000 {
      assert (size * 2) % 0x1_0000_0000 == size * 2 + 0x1_0000_0000;
    } else {
      assert (size * 2) % 0x1_0000_0000 == size * 2 + 0x1_0000_0000;
    }
  }

  /** The numbers a byte and an int stand for in two's complement. */
  function Signed8(b: bv8): int
  {
    if b < 0x80 then b as int else b as int - 0x100
  }

  function Signed32(w: bv32): int
  {
    if w < 0x8000_0000 then w as int else w as int - 0x1_0000_0000
  }

  /** The cast `(byte) x` of an int: only the low eight bits are kept. */
  function Trunc8(x: bv32): bv8
  {
    (x & 0xFF) as bv8
  }

  /** The cast `(short) x` of an int: only the low sixteen bits are kept. */
  function Narrow16(x: bv32): bv16
  {
    (x & 0xFFFF) as bv16
  }

  /** The casts drop the high bits and nothing else. */
  lemma NarrowingKeepsLowBits(x: bv32)
    ensures x == ((x >> 8) << 8) | (Trunc8(x) as bv32)
    ensures x == ((x >> 16) << 16) | (Narrow16(x) as bv32)
  {
  }

  /** Java's implicit widening of a byte to an int before `<<`, `&` or `|`: bit 7, the sign
      bit, is copied into bits 8 to 31. */
  function SignExtend8(b: bv8): bv32
  {
    if b < 0x80 then b as bv32 else (b as bv32) | 0xFFFF_FF00
  }

  /** Java's implicit widening of a short to an int before `>>>` or `&`. */
  function SignExtend16(s: bv16): bv32
  {
    if s < 0x8000 then s as bv32 else (s as bv32) | 0xFFFF_0000
  }

  /** Widening keeps the number a byte stands for, and narrowing back undoes it. */
  lemma ByteWideningKeepsValue(b: bv8)
    ensures Signed32(SignExtend8(b)) == Signed8(b) && Trunc8(SignExtend8(b)) == b
  {
  }

  /** Narrowing a widened short back to a short gives the short again; so does its high half
      shifted down, which copies the sign bit of the short. */
  lemma ShortWideningUndone(s: bv16)
    ensures Narrow16(SignExtend16(s)) == s
    ensures SignExtend16(s) >> 16 == (if s < 0x8000 then 0 else 0xFFFF)
  {
  }
}
