/** Bytes: conversions between byte arrays and Java's 32-bit int and 16-bit short, in big- or
    little-endian byte order, and a hex dump of a byte array. Java's byte, short and int are the
    bit patterns bv8, bv16 and bv32; `bigEndian` is the flag every conversion takes. */
module Bytes {
  import opened JavaPrim
  import Numbers

  // ---------------------------------------------------------------------------------------
  // The bytes of a word: the reference meaning of every conversion below.
  // ---------------------------------------------------------------------------------------

  /** Byte k of an int, counted from the least significant (k = 0) to the most significant
      (k = 3). */
  function ByteOf(w: bv32, k: nat): bv8
    requires k < 4
  {
    if k == 0 then (w & 0xFF) as bv8
    else if k == 1 then ((w >> 8) & 0xFF) as bv8
    else if k == 2 then ((w >> 16) & 0xFF) as bv8
    else (w >> 24) as bv8
  }

  /** The high and the low byte of a short. */
  function HighByte(s: bv16): bv8
  {
    (s >> 8) as bv8
  }

  function LowByte(s: bv16): bv8
  {
    (s & 0xFF) as bv8
  }

  /** An int is determined by its four bytes. */
  lemma WordFromBytes(w: bv32, v: bv32)
    requires ByteOf(w, 0) == ByteOf(v, 0) && ByteOf(w, 1) == ByteOf(v, 1)
    requires ByteOf(w, 2) == ByteOf(v, 2) && ByteOf(w, 3) == ByteOf(v, 3)
    ensures w == v
  {
  }

  function Reversed<T>(s: seq<T>): (r: seq<T>)
    ensures |r| == |s|
  {
    seq(|s|, k requires 0 <= k < |s| => s[|s| - 1 - k])
  }

  lemma ReversedFour<T>(g: seq<T>)
    requires |g| == 4
    ensures Reversed(g) == [g[3], g[2], g[1], g[0]]
  {
  }

  function Min(a: int, b: int): int
  {
    if a < b then a else b
  }

  // ---------------------------------------------------------------------------------------
  // toInt, both overloads
  // ---------------------------------------------------------------------------------------

  /** toInt(byte, byte, byte, byte, boolean). Each byte is widened to an int with its sign, shifted
      into place and masked, which throws the copied sign bits away again. Big-endian makes b0
      the most significant byte, little-endian makes b3 the most significant. */
  function ToInt4(b0: bv8, b1: bv8, b2: bv8, b3: bv8, bigEndian: bool): (r: bv32)
    ensures bigEndian ==>
      ByteOf(r, 3) == b0 && ByteOf(r, 2) == b1 && ByteOf(r, 1) == b2 && ByteOf(r, 0) == b3
    ensures !bigEndian ==>
      ByteOf(r, 3) == b3 && ByteOf(r, 2) == b2 && ByteOf(r, 1) == b1 && ByteOf(r, 0) == b0
  {
    if bigEndian then
      ((SignExtend8(b0) << 24) & 0xFF00_0000) | ((SignExtend8(b1) << 16) & 0xFF_0000) |
      ((SignExtend8(b2) << 8) & 0xFF00) | (SignExtend8(b3) & 0xFF)
    else
      ((SignExtend8(b3) << 24) & 0xFF00_0000) | ((SignExtend8(b2) << 16) & 0xFF_0000) |
      ((SignExtend8(b1) << 8) & 0xFF00) | (SignExtend8(b0) & 0xFF)
  }

  /** toInt(byte[], boolean): IllegalArgumentException unless the array holds exactly four bytes;
      otherwise the same int as the four-byte overload. */
  function ToInt(pb: seq<bv8>, bigEndian: bool): (r: Result<bv32>)
    ensures r.Err? <==> |pb| != 4
    ensures r.Err? ==> r.error == IllegalArgument(WrongLength)
    ensures r.Ok? ==> r.value == ToInt4(pb[0], pb[1], pb[2], pb[3], bigEndian)
  {
    if |pb| != 4 then Err(IllegalArgument(WrongLength))
    else if bigEndian then
      Ok(((SignExtend8(pb[0]) << 24) & 0xFF00_0000) | ((SignExtend8(pb[1]) << 16) & 0xFF_0000) |
         ((SignExtend8(pb[2]) << 8) & 0xFF00) | (SignExtend8(pb[3]) & 0xFF))
    else
      Ok(((SignExtend8(pb[3]) << 24) & 0xFF00_0000) | ((SignExtend8(pb[2]) << 16) & 0xFF_0000) |
         ((SignExtend8(pb[1]) << 8) & 0xFF00) | (SignExtend8(pb[0]) & 0xFF))
  }

  /** Reading a group big-endian with its bytes passed in reverse is reading it little-endian:
      the little-endian branch of toIntArray relies on this. */
  lemma ToInt4Reversed(b0: bv8, b1: bv8, b2: bv8, b3: bv8)
    ensures ToInt4(b3, b2, b1, b0, true) == ToInt4(b0, b1, b2, b3, false)
  {
    WordFromBytes(ToInt4(b3, b2, b1, b0, true), ToInt4(b0, b1, b2, b3, false));
  }

  // ---------------------------------------------------------------------------------------
  // toByteArray(int) and toByteArray(short)
  // ---------------------------------------------------------------------------------------

  /** The four bytes of an int, most significant first for big-endian and least significant first
      for little-endian. */
  function IntToBytes(i: bv32, bigEndian: bool): seq<bv8>
  {
    if bigEndian then [ByteOf(i, 3), ByteOf(i, 2), ByteOf(i, 1), ByteOf(i, 0)]
    else [ByteOf(i, 0), ByteOf(i, 1), ByteOf(i, 2), ByteOf(i, 3)]
  }

  /** toByteArray(int, boolean): a fresh four-byte array filled by unsigned shifts and casts. */
  method IntToByteArray(i: bv32, bigEndian: bool) returns (ba: array<bv8>)
    ensures fresh(ba) && ba[..] == IntToBytes(i, bigEndian)
  {
    ba := new bv8[4];
    if bigEndian {
      ba[0] := Trunc8(i >> 24);
      ba[1] := Trunc8((i >> 16) & 0xFF);
      ba[2] := Trunc8((i >> 8) & 0xFF);
      ba[3] := Trunc8(i & 0xFF);
    } else {
      ba[0] := Trunc8(i & 0xFF);
      ba[1] := Trunc8((i >> 8) & 0xFF);
      ba[2] := Trunc8((i >> 16) & 0xFF);
      ba[3] := Trunc8(i >> 24);
    }
  }

  /** Decoding the encoding of an int gives the int back, in either byte order. */
  lemma IntRoundTrip(i: bv32, bigEndian: bool)
    ensures ToInt(IntToBytes(i, bigEndian), bigEndian) == Ok(i)
  {
    var bs := IntToBytes(i, bigEndian);
    WordFromBytes(ToInt(bs, bigEndian).value, i);
  }

  /** Encoding the int that four bytes decode to gives the four bytes back. */
  lemma BytesRoundTrip(pb: seq<bv8>, bigEndian: bool)
    requires |pb| == 4
    ensures IntToBytes(ToInt(pb, bigEndian).value, bigEndian) == pb
  {
  }

  /** The big-endian bytes of an int are its little-endian bytes reversed. */
  lemma IntBytesReversed(i: bv32)
    ensures IntToBytes(i, true) == Reversed(IntToBytes(i, false))
  {
  }

  /** The two bytes of a short: high then low for big-endian, low then high for little-endian. */
  function ShortToBytes(s: bv16, bigEndian: bool): seq<bv8>
  {
    if bigEndian then [HighByte(s), LowByte(s)] else [LowByte(s), HighByte(s)]
  }

  /** toByteArray(short, boolean): a fresh two-byte array. The short is widened with its sign
      before `>>>`, and the cast back to byte drops the copied sign bits. */
  method ShortToByteArray(s: bv16, bigEndian: bool) returns (ba: array<bv8>)
    ensures fresh(ba) && ba[..] == ShortToBytes(s, bigEndian)
  {
    ShortHalves(s);
    ba := new bv8[2];
    if bigEndian {
      ba[0] := Trunc8(SignExtend16(s) >> 8);
      ba[1] := Trunc8(SignExtend16(s) & 0xFF);
    } else {
      ba[0] := Trunc8(SignExtend16(s) & 0xFF);
      ba[1] := Trunc8((SignExtend16(s) >> 8) & 0xFF);
    }
  }

  /** The short that toShortArray builds from two bytes, given in the array's order: the first
      byte is the high one for big-endian and the low one for little-endian. */
  function BytesToShort(b0: bv8, b1: bv8, bigEndian: bool): bv16
  {
    if bigEndian then Narrow16(((SignExtend8(b0) << 8) & 0xFF00) | (SignExtend8(b1) & 0xFF))
    else Narrow16(((SignExtend8(b1) << 8) & 0xFF00) | (SignExtend8(b0) & 0xFF))
  }

  /** Encoding the short that two bytes decode to gives the two bytes back. */
  lemma ShortBytesRoundTrip(b0: bv8, b1: bv8, bigEndian: bool)
    ensures ShortToBytes(BytesToShort(b0, b1, bigEndian), bigEndian) == [b0, b1]
  {
  }

  /** `(byte) (s >>> 8)` and `(byte) (s & 0xff)` of a short widened with its sign are its high
      and its low byte. */
  lemma ShortHalves(s: bv16)
    ensures Trunc8(SignExtend16(s) >> 8) == HighByte(s)
    ensures Trunc8((SignExtend16(s) >> 8) & 0xFF) == HighByte(s)
    ensures Trunc8(SignExtend16(s) & 0xFF) == LowByte(s)
  {
  }

  /** Decoding the two bytes of a short gives the short back. */
  lemma ShortRoundTrip(s: bv16, bigEndian: bool)
    ensures var bs := ShortToBytes(s, bigEndian); BytesToShort(bs[0], bs[1], bigEndian) == s
  {
  }

  /** The big-endian bytes of a short are its little-endian bytes reversed. */
  lemma ShortBytesReversed(s: bv16)
    ensures ShortToBytes(s, true) == Reversed(ShortToBytes(s, false))
  {
  }

  /** The library's test vectors. */
  lemma CodecExamples()
    ensures ToInt([0x7E, 0xAC, 0x8A, 0x93], true) == Ok(0x7EAC8A93)
    ensures ToInt([0x7E, 0xAC, 0x8A, 0x93], false) == Ok(0x938AAC7E)
    ensures ToInt4(0x7E, 0xAC, 0x8A, 0x93, true) == 0x7EAC8A93
    ensures ToInt4(0x7E, 0xAC, 0x8A, 0x93, false) == 0x938AAC7E
    ensures IntToBytes(0x7EAC8A93, true) == [0x7E, 0xAC, 0x8A, 0x93]
    ensures IntToBytes(0x7EAC8A93, false) == [0x93, 0x8A, 0xAC, 0x7E]
    ensures IntToBytes(0x938AAC7E, false) == [0x7E, 0xAC, 0x8A, 0x93]
    ensures IntToBytes(0x938AAC7E, true) == [0x93, 0x8A, 0xAC, 0x7E]
    ensures ShortToBytes(0x43AC, true) == [0x43, 0xAC]
    ensures ShortToBytes(0x43AC, false) == [0xAC, 0x43]
    ensures ShortToBytes(0xAC43, false) == [0x43, 0xAC]
    ensures ShortToBytes(0xAC43, true) == [0xAC, 0x43]
    ensures BytesToShort(0x7E, 0xAC, false) == 0xAC7E
  {
  }

  // ---------------------------------------------------------------------------------------
  // The array conversions
  // ---------------------------------------------------------------------------------------

  /** determineSize: the check every byte-to-word array conversion makes. `order` is the word
      size the caller passes; the result is always `amount`, since the `min` with the array
      length is taken only after amount was checked not to exceed it. */
  function DetermineSize(amount: Int32, arrayLength: nat, order: Int32): (r: Result<int>)
    requires order > 0
    ensures r.Ok? <==> order <= amount <= arrayLength && amount % order == 0
    ensures r.Ok? ==> r.value == amount
    ensures r == Err(IllegalArgument(AmountOutOfRange)) <==> amount < order || amount > arrayLength
    ensures r.Err? ==> r.error.IllegalArgument?
    ensures order <= amount <= arrayLength && amount % order != 0 ==>
      r == Err(IllegalArgument(SizeNotMultiple))
  {
    if amount < order || amount > arrayLength then
      Err(IllegalArgument(AmountOutOfRange))
    else
      var size := if amount < arrayLength then amount else arrayLength;
      if Rem(size, order) != 0 then Err(IllegalArgument(SizeNotMultiple)) else Ok(size)
  }

  // Sequences of words: a word codec lifted to sequences, one group of bytes per word. These
  // know nothing about bytes, so their lemmas are about any decoder and encoder.

  /** Maps f over the consecutive pairs of s; an odd last element belongs to no pair. */
  function Pairs<A, W>(s: seq<A>, f: (A, A) -> W): (r: seq<W>)
    ensures |r| == |s| / 2
  {
    if |s| < 2 then [] else [f(s[0], s[1])] + Pairs(s[2..], f)
  }

  /** Maps f over the consecutive groups of four of s; up to three last elements belong to no
      group. */
  function Quads<A, W>(s: seq<A>, f: (A, A, A, A) -> W): (r: seq<W>)
    ensures |r| == |s| / 4
  {
    if |s| < 4 then [] else [f(s[0], s[1], s[2], s[3])] + Quads(s[4..], f)
  }

  /** The concatenation of g(w) over the words w of ws. */
  function Flatten<A, W>(ws: seq<W>, g: W -> seq<A>): seq<A>
  {
    if ws == [] then [] else g(ws[0]) + Flatten(ws[1..], g)
  }

  lemma {:induction false} PairsAt<A, W>(s: seq<A>, f: (A, A) -> W, k: nat)
    requires k < |s| / 2
    ensures Pairs(s, f)[k] == f(s[2 * k], s[2 * k + 1])
  {
    if k > 0 {
      PairsAt(s[2..], f, k - 1);
    }
  }

  lemma {:induction false} QuadsAt<A, W>(s: seq<A>, f: (A, A, A, A) -> W, k: nat)
    requires k < |s| / 4
    ensures Quads(s, f)[k] == f(s[4 * k], s[4 * k + 1], s[4 * k + 2], s[4 * k + 3])
  {
    if k > 0 {
      QuadsAt(s[4..], f, k - 1);
    }
  }

  lemma {:induction false} PairsSnoc<A, W>(s: seq<A>, a: A, b: A, f: (A, A) -> W)
    requires |s| % 2 == 0
    ensures Pairs(s + [a, b], f) == Pairs(s, f) + [f(a, b)]
  {
    if s != [] {
      PairsSnoc(s[2..], a, b, f);
      assert (s + [a, b])[2..] == s[2..] + [a, b];
    }
  }

  lemma {:induction false} QuadsSnoc<A, W>(s: seq<A>, a: A, b: A, c: A, d: A, f: (A, A, A, A) -> W)
    requires |s| % 4 == 0
    ensures Quads(s + [a, b, c, d], f) == Quads(s, f) + [f(a, b, c, d)]
  {
    if s != [] {
      QuadsSnoc(s[4..], a, b, c, d, f);
      assert (s + [a, b, c, d])[4..] == s[4..] + [a, b, c, d];
    }
  }

  lemma {:induction false} FlattenSnoc<A, W>(ws: seq<W>, w: W, g: W -> seq<A>)
    ensures Flatten(ws + [w], g) == Flatten(ws, g) + g(w)
  {
    if ws == [] {
      assert Flatten([w], g) == g(w) + Flatten([], g);
    } else {
      FlattenSnoc(ws[1..], w, g);
      assert (ws + [w])[1..] == ws[1..] + [w];
    }
  }

  /** When every word encodes to two elements, elements 2j and 2j + 1 encode word j. */
  lemma {:induction false} FlattenPairsAt<A, W>(ws: seq<W>, g: W -> seq<A>, j: nat)
    requires forall w :: |g(w)| == 2
    requires j < |ws|
    ensures |Flatten(ws, g)| == 2 * |ws|
    ensures Flatten(ws, g)[2 * j..2 * j + 2] == g(ws[j])
  {
    var rest := Flatten(ws[1..], g);
    if j == 0 {
      if |ws| > 1 {
        FlattenPairsAt(ws[1..], g, 0);
      }
    } else {
      FlattenPairsAt(ws[1..], g, j - 1);
      assert Flatten(ws, g)[2 * j..2 * j + 2] == rest[2 * j - 2..2 * j];
    }
  }

  /** Decoding what a word encoder produced gives the words back, if the decoder inverts the
      encoder on every word. */
  lemma {:induction false} PairsOfFlatten<A, W>(ws: seq<W>, g: W -> seq<A>, f: (A, A) -> W)
    requires forall w :: |g(w)| == 2 && f(g(w)[0], g(w)[1]) == w
    ensures Pairs(Flatten(ws, g), f) == ws
  {
    if ws != [] {
      PairsOfFlatten(ws[1..], g, f);
      var s := Flatten(ws, g);
      assert s[2..] == Flatten(ws[1..], g);
      assert ws == [ws[0]] + ws[1..];
    }
  }

  lemma {:induction false} QuadsOfFlatten<A, W>(ws: seq<W>, g: W -> seq<A>, f: (A, A, A, A) -> W)
    requires forall w :: |g(w)| == 4 && f(g(w)[0], g(w)[1], g(w)[2], g(w)[3]) == w
    ensures Quads(Flatten(ws, g), f) == ws
  {
    if ws != [] {
      QuadsOfFlatten(ws[1..], g, f);
      var s := Flatten(ws, g);
      assert s[4..] == Flatten(ws[1..], g);
      assert ws == [ws[0]] + ws[1..];
    }
  }

  /** Encoding the words decoded from a sequence gives the sequence back, if the encoder inverts
      the decoder on every group. */
  lemma {:induction false} FlattenOfPairs<A, W>(s: seq<A>, f: (A, A) -> W, g: W -> seq<A>)
    requires |s| % 2 == 0
    requires forall a, b :: g(f(a, b)) == [a, b]
    ensures Flatten(Pairs(s, f), g) == s
  {
    if s != [] {
      FlattenOfPairs(s[2..], f, g);
      assert s == [s[0], s[1]] + s[2..];
    }
  }

  lemma {:induction false} FlattenOfQuads<A, W>(s: seq<A>, f: (A, A, A, A) -> W, g: W -> seq<A>)
    requires |s| % 4 == 0
    requires forall a, b, c, d :: g(f(a, b, c, d)) == [a, b, c, d]
    ensures Flatten(Quads(s, f), g) == s
  {
    if s != [] {
      FlattenOfQuads(s[4..], f, g);
      assert s == [s[0], s[1], s[2], s[3]] + s[4..];
    }
  }

  // toIntArray

  function IntDecoder(bigEndian: bool): (bv8, bv8, bv8, bv8) -> bv32
  {
    (b0, b1, b2, b3) => ToInt4(b0, b1, b2, b3, bigEndian)
  }

  function IntEncoder(bigEndian: bool): bv32 -> seq<bv8>
  {
    i => IntToBytes(i, bigEndian)
  }

  /** The ints that the consecutive four-byte groups of bs stand for. */
  function IntsOf(bs: seq<bv8>, bigEndian: bool): seq<bv32>
  {
    Quads(bs, IntDecoder(bigEndian))
  }

  /** The bytes of a sequence of ints, four per int. */
  function IntsToBytes(ws: seq<bv32>, bigEndian: bool): seq<bv8>
  {
    Flatten(ws, IntEncoder(bigEndian))
  }

  /** Int k of IntsOf(bs) is what toInt makes of bytes 4k to 4k + 3. */
  lemma IntsOfAt(bs: seq<bv8>, bigEndian: bool, k: nat)
    requires k < |bs| / 4
    ensures ToInt(bs[4 * k..4 * k + 4], bigEndian) == Ok(IntsOf(bs, bigEndian)[k])
  {
    var g := bs[4 * k..4 * k + 4];
    assert |g| == 4 && g[0] == bs[4 * k] && g[1] == bs[4 * k + 1] && g[2] == bs[4 * k + 2] && g[3] == bs[4 * k + 3];
    QuadsAt(bs, IntDecoder(bigEndian), k);
    assert IntsOf(bs, bigEndian)[k] == ToInt4(g[0], g[1], g[2], g[3], bigEndian);
  }

  /** Read little-endian, int k of a byte sequence is its four-byte group reversed and read
      big-endian. */
  lemma IntsOfLittleEndian(bs: seq<bv8>, k: nat)
    requires k < |bs| / 4
    ensures ToInt(Reversed(bs[4 * k..4 * k + 4]), true) == Ok(IntsOf(bs, false)[k])
  {
    IntsOfAt(bs, false, k);
    var g := bs[4 * k..4 * k + 4];
    ReversedFour(g);
    ToInt4Reversed(g[0], g[1], g[2], g[3]);
  }

  /** Decoding the bytes of a sequence of ints gives the ints back. */
  lemma IntsRoundTrip(ws: seq<bv32>, bigEndian: bool)
    ensures IntsOf(IntsToBytes(ws, bigEndian), bigEndian) == ws
  {
    var f, g := IntDecoder(bigEndian), IntEncoder(bigEndian);
    forall w | true
      ensures |g(w)| == 4 && f(g(w)[0], g(w)[1], g(w)[2], g(w)[3]) == w
    {
      IntRoundTrip(w, bigEndian);
    }
    QuadsOfFlatten(ws, g, f);
  }

  /** Encoding the ints a byte sequence decodes to gives the bytes back. */
  lemma BytesToIntsRoundTrip(bs: seq<bv8>, bigEndian: bool)
    requires |bs| % 4 == 0
    ensures IntsToBytes(IntsOf(bs, bigEndian), bigEndian) == bs
  {
    var f, g := IntDecoder(bigEndian), IntEncoder(bigEndian);
    forall b0, b1, b2, b3
      ensures g(f(b0, b1, b2, b3)) == [b0, b1, b2, b3]
    {
      BytesRoundTrip([b0, b1, b2, b3], bigEndian);
    }
    FlattenOfQuads(bs, f, g);
  }

  /** One turn of toIntArray's loop: the int read from bytes j to j + 3 extends the ints of the
      first j bytes to those of the first j + 4. */
  lemma IntsOfStep(bs: seq<bv8>, j: nat, bigEndian: bool)
    requires j + 4 <= |bs| && j % 4 == 0
    ensures IntsOf(bs[..j + 4], bigEndian) ==
      IntsOf(bs[..j], bigEndian) + [ToInt4(bs[j], bs[j + 1], bs[j + 2], bs[j + 3], bigEndian)]
  {
    assert bs[..j + 4] == bs[..j] + [bs[j], bs[j + 1], bs[j + 2], bs[j + 3]];
    QuadsSnoc(bs[..j], bs[j], bs[j + 1], bs[j + 2], bs[j + 3], IntDecoder(bigEndian));
  }

  /** toIntArray: checks amount with determineSize(amount, ba.length, 4), then reads the ints of
      the first amount bytes; bytes from amount on are ignored. */
  method ToIntArray(ba: array<bv8>, amount: Int32, bigEndian: bool) returns (r: Result<array<bv32>>)
    ensures r.Err? <==> !(4 <= amount <= ba.Length && amount % 4 == 0)
    ensures r.Err? ==> r.error == IllegalArgument(
      if amount < 4 || amount > ba.Length then AmountOutOfRange else SizeNotMultiple)
    ensures r.Ok? ==> fresh(r.value) && r.value[..] == IntsOf(ba[..amount], bigEndian)
  {
    var checked := DetermineSize(amount, ba.Length, 4);
    if checked.Err? {
      return Err(checked.error);
    }
    var size := checked.value;
    var result := new bv32[size / 4];
    var i := 0;
    var j := 0;
    ghost var q := size / 4;
    assert size == 4 * q;
    while j < size
      invariant 0 <= j <= size && j == 4 * i
      invariant result[..i] == IntsOf(ba[..j], bigEndian)
    {
      if bigEndian {
        result[i] := ToInt4(ba[j], ba[j + 1], ba[j + 2], ba[j + 3], true);
      } else {
        ToInt4Reversed(ba[j], ba[j + 1], ba[j + 2], ba[j + 3]);
        result[i] := ToInt4(ba[j + 3], ba[j + 2], ba[j + 1], ba[j], true);
      }
      IntsOfStep(ba[..], j, bigEndian);
      assert result[..i + 1] == result[..i] + [result[i]];
      i := i + 1;
      j := j + 4;
    }
    assert ba[..j] == ba[..amount];
    assert result[..i] == result[..];
    r := Ok(result);
  }

  // toShortArray and toByteArray(short[])

  function ShortDecoder(bigEndian: bool): (bv8, bv8) -> bv16
  {
    (b0, b1) => BytesToShort(b0, b1, bigEndian)
  }

  function ShortEncoder(bigEndian: bool): bv16 -> seq<bv8>
  {
    s => ShortToBytes(s, bigEndian)
  }

  /** The shorts that the consecutive byte pairs of bs stand for. */
  function ShortsOf(bs: seq<bv8>, bigEndian: bool): seq<bv16>
  {
    Pairs(bs, ShortDecoder(bigEndian))
  }

  /** The bytes of a sequence of shorts, two per short. */
  function ShortsToBytes(ss: seq<bv16>, bigEndian: bool): seq<bv8>
  {
    Flatten(ss, ShortEncoder(bigEndian))
  }

  /** Short k of ShortsOf(bs) is made of bytes 2k and 2k + 1, in the given order. */
  lemma ShortsOfAt(bs: seq<bv8>, bigEndian: bool, k: nat)
    requires k < |bs| / 2
    ensures ShortToBytes(ShortsOf(bs, bigEndian)[k], bigEndian) == bs[2 * k..2 * k + 2]
  {
    PairsAt(bs, ShortDecoder(bigEndian), k);
  }

  /** ShortsToBytes(ss) has two bytes per short, and bytes 2j and 2j + 1 are those of short j. */
  lemma ShortsToBytesAt(ss: seq<bv16>, bigEndian: bool, j: nat)
    requires j < |ss|
    ensures |ShortsToBytes(ss, bigEndian)| == 2 * |ss|
    ensures ShortsToBytes(ss, bigEndian)[2 * j..2 * j + 2] == ShortToBytes(ss[j], bigEndian)
  {
    FlattenPairsAt(ss, ShortEncoder(bigEndian), j);
  }

  /** Decoding the bytes of a sequence of shorts gives the shorts back. */
  lemma ShortsRoundTrip(ss: seq<bv16>, bigEndian: bool)
    ensures ShortsOf(ShortsToBytes(ss, bigEndian), bigEndian) == ss
  {
    var f, g := ShortDecoder(bigEndian), ShortEncoder(bigEndian);
    forall w | true
      ensures |g(w)| == 2 && f(g(w)[0], g(w)[1]) == w
    {
      ShortRoundTrip(w, bigEndian);
    }
    PairsOfFlatten(ss, g, f);
  }

  /** Encoding the shorts a byte sequence decodes to gives the bytes back. */
  lemma BytesToShortsRoundTrip(bs: seq<bv8>, bigEndian: bool)
    requires |bs| % 2 == 0
    ensures ShortsToBytes(ShortsOf(bs, bigEndian), bigEndian) == bs
  {
    var f, g := ShortDecoder(bigEndian), ShortEncoder(bigEndian);
    forall b0, b1
      ensures g(f(b0, b1)) == [b0, b1]
    {
      ShortBytesRoundTrip(b0, b1, bigEndian);
    }
    FlattenOfPairs(bs, f, g);
  }

  /** One turn of toShortArray's loop: the short read from bytes j and j + 1 extends the shorts of
      the first j bytes to those of the first j + 2. */
  lemma ShortsOfStep(bs: seq<bv8>, j: nat, bigEndian: bool)
    requires j + 2 <= |bs| && j % 2 == 0
    ensures ShortsOf(bs[..j + 2], bigEndian) ==
      ShortsOf(bs[..j], bigEndian) + [BytesToShort(bs[j], bs[j + 1], bigEndian)]
  {
    assert bs[..j + 2] == bs[..j] + [bs[j], bs[j + 1]];
    PairsSnoc(bs[..j], bs[j], bs[j + 1], ShortDecoder(bigEndian));
  }

  /** The library's array test vectors: two ints from eight bytes, two shorts from four bytes,
      and four bytes from two shorts. */
  lemma ArrayCodecExamples()
    ensures IntsOf([0x7E, 0xAC, 0x8A, 0x93, 0x66, 0xAA, 0xBB, 0xCC], true) == [0x7EAC8A93, 0x66AABBCC]
    ensures IntsOf([0x7E, 0xAC, 0x8A, 0x93, 0x66, 0xAA, 0xBB, 0xCC], false) == [0x938AAC7E, 0xCCBBAA66]
    ensures ShortsOf([0x7E, 0xAC, 0x8A, 0x93], true) == [0x7EAC, 0x8A93]
    ensures ShortsOf([0x7E, 0xAC, 0x8A, 0x93], false) == [0xAC7E, 0x938A]
    ensures ShortsToBytes([0x7EAC, 0x8A93], true) == [0x7E, 0xAC, 0x8A, 0x93]
    ensures ShortsToBytes([0x7EAC, 0x8A93], false) == [0xAC, 0x7E, 0x93, 0x8A]
  {
    var bs: seq<bv8> := [0x7E, 0xAC, 0x8A, 0x93, 0x66, 0xAA, 0xBB, 0xCC];
    var ss: seq<bv16> := [0x7EAC, 0x8A93];
    assert bs[4..][4..] == [] && bs[..4][2..][2..] == [] && ss[1..][1..] == [];
  }

  /** toShortArray: checks amount with determineSize(amount, ba.length, 4) -- the word size of an
      int, not of a short -- then reads the shorts of the first amount bytes. */
  method ToShortArray(ba: array<bv8>, amount: Int32, bigEndian: bool) returns (r: Result<array<bv16>>)
    ensures r.Err? <==> !(4 <= amount <= ba.Length && amount % 4 == 0)
    ensures r.Err? ==> r.error == IllegalArgument(
      if amount < 4 || amount > ba.Length then AmountOutOfRange else SizeNotMultiple)
    ensures r.Ok? ==> fresh(r.value) && r.value[..] == ShortsOf(ba[..amount], bigEndian)
  {
    var checked := DetermineSize(amount, ba.Length, 4);
    if checked.Err? {
      return Err(checked.error);
    }
    var size := checked.value;
    var result := new bv16[size / 2];
    var i := 0;
    var j := 0;
    ghost var q := size / 4;
    assert size == 4 * q && size / 2 == 2 * q;
    while j < size
      invariant 0 <= j <= size && j == 2 * i
      invariant result[..i] == ShortsOf(ba[..j], bigEndian)
    {
      if bigEndian {
        result[i] := BytesToShort(ba[j], ba[j + 1], true);
      } else {
        result[i] := BytesToShort(ba[j], ba[j + 1], false);
      }
      ShortsOfStep(ba[..], j, bigEndian);
      assert result[..i + 1] == result[..i] + [result[i]];
      i := i + 1;
      j := j + 2;
    }
    assert ba[..j] == ba[..amount];
    assert result[..i] == result[..];
    r := Ok(result);
  }

  /** toByteArray(short[], int, boolean): converts the first min(amount, sa.length) shorts, two
      bytes each, and never complains that amount exceeds the array. The length `size * 2` is
      an int product: a negative amount down to -2^30 makes it negative and the allocation
      throws NegativeArraySizeException, a smaller amount wraps it round to a length in
      [0, 2^31) and the loop writes nothing, and so does a size of 2^30 or more, which wraps it
      negative. */
  method ShortArrayToByteArray(sa: array<bv16>, amount: Int32, bigEndian: bool)
    returns (r: Result<array<bv8>>)
    ensures r.Err? <==> -0x4000_0000 <= amount < 0 || Min(amount, sa.Length) >= 0x4000_0000
    ensures r.Err? ==> r.error == NegativeArraySize
    ensures r.Ok? && amount >= 0 ==>
      fresh(r.value) && r.value[..] == ShortsToBytes(sa[..Min(amount, sa.Length)], bigEndian)
    ensures r.Ok? && amount < 0 ==> fresh(r.value) && r.value.Length == 2 * amount + 0x1_0000_0000
    ensures r.Ok? && amount < 0 ==> forall k :: 0 <= k < r.value.Length ==> r.value[k] == 0
  {
    var size := if amount < sa.Length then amount else sa.Length;
    DoubledSize(size);
    var length := Wrap32(size * 2);
    if length < 0 {
      return Err(NegativeArraySize);
    }
    var result := new bv8[length](_ => 0);
    PutShorts(sa, if size < 0 then 0 else size, bigEndian, result);
    if size >= 0 {
      assert result[..] == result[..2 * size];
    }
    r := Ok(result);
  }

  /** The loop of toByteArray(short[], int, boolean): the bytes of the first n shorts go to the
      front of result, and the rest of result keeps what it held. */
  method PutShorts(sa: array<bv16>, n: nat, bigEndian: bool, result: array<bv8>)
    requires n <= sa.Length && 2 * n <= result.Length
    modifies result
    ensures result[..2 * n] == ShortsToBytes(sa[..n], bigEndian)
    ensures forall k :: 2 * n <= k < result.Length ==> result[k] == old(result[k])
  {
    for j := 0 to n
      invariant result[..2 * j] == ShortsToBytes(sa[..j], bigEndian)
      invariant forall k :: 2 * j <= k < result.Length ==> result[k] == old(result[k])
    {
      var bh, bl := SplitShort(sa[j]);
      ghost var pair := ShortToBytes(sa[j], bigEndian);
      ghost var before := result[..];
      if bigEndian {
        result[j * 2] := bh;
        result[j * 2 + 1] := bl;
      } else {
        result[j * 2] := bl;
        result[j * 2 + 1] := bh;
      }
      assert result[..] == before[2 * j := pair[0]][2 * j + 1 := pair[1]];
      assert sa[..j + 1] == sa[..j] + [sa[j]];
      PutShortsStep(before, result[..], sa[..j], sa[j], bigEndian);
    }
  }

  /** The two casts in the loop of toByteArray(short[], int, boolean), `(byte) (sa[j] >>> 8)` and
      `(byte) (sa[j] & 0xff)`: they pick out the high and the low byte of the short. */
  method SplitShort(s: bv16) returns (bh: bv8, bl: bv8)
    ensures bh == HighByte(s) && bl == LowByte(s)
  {
    bh := Trunc8(SignExtend16(s) >> 8);
    bl := Trunc8(SignExtend16(s) & 0xFF);
    ShortHalves(s);
  }

  /** One turn of PutShorts: writing the bytes of short s at the end of the bytes of done extends
      them to the bytes of done + [s] and keeps everything after. */
  lemma PutShortsStep(before: seq<bv8>, after: seq<bv8>, done: seq<bv16>, s: bv16, bigEndian: bool)
    requires 2 * |done| + 2 <= |before| == |after|
    requires before[..2 * |done|] == ShortsToBytes(done, bigEndian)
    requires after == before[2 * |done| := ShortToBytes(s, bigEndian)[0]][2 * |done| + 1 := ShortToBytes(s, bigEndian)[1]]
    ensures after[..2 * |done| + 2] == ShortsToBytes(done + [s], bigEndian)
    ensures forall k :: 2 * |done| + 2 <= k < |after| ==> after[k] == before[k]
  {
    var i := 2 * |done|;
    assert after[..i + 2] == before[..i] + ShortToBytes(s, bigEndian);
    FlattenSnoc(done, s, ShortEncoder(bigEndian));
  }

  // ---------------------------------------------------------------------------------------
  // hexDump
  // ---------------------------------------------------------------------------------------

  /** One call on hexDump's PrintStream: `print` of a text, or `println()`, which writes the
      platform's line separator. */
  datatype Printed = Text(s: string) | LineBreak

  /** What hexDump prints after the n-th byte, counting from 1: a line break when Java's
      `n % columns` is zero and a space otherwise. */
  function Separator(n: nat, columns: Int32): Printed
    requires columns != 0
  {
    if Rem(n, columns) == 0 then LineBreak else Text(" ")
  }

  /** Java's `%` takes the sign of the dividend, so a negative column count acts like its
      absolute value: a line ends after every |columns| bytes. */
  lemma SeparatorEveryColumns(n: nat, columns: Int32)
    requires columns != 0
    ensures Separator(n, columns) == LineBreak <==> n % Abs(columns) == 0
  {
  }

  /** What hexDump prints for the bytes bs when it does not throw: each byte's padded token,
      then the separator that its 1-based position calls for. */
  function Dump(bs: seq<bv8>, columns: Int32): seq<Printed>
    requires columns != 0
  {
    if bs == [] then []
    else Dump(bs[..|bs| - 1], columns) + [Text(Numbers.ToHexWithZeros(bs[|bs| - 1])), Separator(|bs|, columns)]
  }

  /** The dump holds two tokens per byte: the k-th byte's padded hex at 2k, its separator at 2k+1. */
  lemma {:induction false} DumpAt(bs: seq<bv8>, columns: Int32)
    requires columns != 0
    ensures |Dump(bs, columns)| == 2 * |bs|
    ensures forall k :: 0 <= k < |bs| ==>
      Dump(bs, columns)[2 * k] == Text(Numbers.ToHexWithZeros(bs[k])) &&
      Dump(bs, columns)[2 * k + 1] == Separator(k + 1, columns)
  {
    if bs != [] {
      var init := bs[..|bs| - 1];
      var front := Dump(init, columns);
      var last := [Text(Numbers.ToHexWithZeros(bs[|bs| - 1])), Separator(|bs|, columns)];
      assert Dump(bs, columns) == front + last;
      DumpAt(init, columns);
      forall k | 0 <= k < |bs|
        ensures (front + last)[2 * k] == Text(Numbers.ToHexWithZeros(bs[k]))
        ensures (front + last)[2 * k + 1] == Separator(k + 1, columns)
      {
        if k < |init| {
          assert init[k] == bs[k];
        }
      }
    }
  }

  /** hexDump: prints every byte as two hex digits, each followed by its separator. With
      columns == 0 the first byte is printed and the remainder then throws ArithmeticException;
      an empty array prints nothing whatever the column count. */
  method HexDump(bytes: array<bv8>, columns: Int32) returns (printed: seq<Printed>, thrown: Option<Exception>)
    ensures thrown == (if columns == 0 && bytes.Length > 0 then Some(Arithmetic) else None)
    ensures thrown.Some? ==> printed == [Text(Numbers.ToHexWithZeros(bytes[0]))]
    ensures thrown.None? && columns != 0 ==> printed == Dump(bytes[..], columns)
    ensures thrown.None? && columns == 0 ==> printed == []
  {
    printed := [];
    thrown := None;
    var cc := 0;
    for n := 0 to bytes.Length
      invariant cc == n
      invariant columns == 0 ==> n == 0 && printed == []
      invariant columns != 0 ==> printed == Dump(bytes[..n], columns)
    {
      printed := printed + [Text(Numbers.ToHexWithZeros(bytes[n]))];
      cc := cc + 1;
      if columns == 0 {
        thrown := Some(Arithmetic);
        return;
      }
      assert bytes[..n + 1][..n] == bytes[..n];
      if Rem(cc, columns) == 0 {
        printed := printed + [LineBreak];
      } else {
        printed := printed + [Text(" ")];
      }
    }
    assert bytes[..bytes.Length] == bytes[..];
  }
}
