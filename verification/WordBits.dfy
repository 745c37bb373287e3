// 64-bit words as the sources' bit operators see them, and the numbers they stand for: shifts,
// or, exclusive or and complement on `bv64`, against arithmetic on `int`.
// Source: the operators in decode_variable and decode_long of src/alert/base.rs, and in
// encode_long and decode_long of src/alert/winter.rs.
module WordBits {
  import opened Bytes

  // ----- the operators -----

  function Or(x: bv64, y: bv64): bv64 { x | y }

  function ShiftRight1(z: bv64): bv64 { z >> 1 }

  function ShiftRight7(z: bv64): bv64 { z >> 7 }

  function ShiftLeft1(z: bv64): bv64 { z << 1 }

  function ShiftLeft7(z: bv64): bv64 { z << 7 }

  /** `d << s` is s shifts by one. */
  function ShiftLeft(d: bv64, s: nat): bv64 {
    if s == 0 then d else ShiftLeft1(ShiftLeft(d, s - 1))
  }

  // ----- the number a word stands for -----

  function Bit(z: bv64, mask: bv64): nat {
    if z & mask == 0 then 0 else 1
  }

  /** The number the low seven bits stand for. */
  function Seven(z: bv64): (n: nat)
    ensures n < 128
  {
    Bit(z, 1) + 2 * Bit(z, 2) + 4 * Bit(z, 4) + 8 * Bit(z, 8) +
    16 * Bit(z, 16) + 32 * Bit(z, 32) + 64 * Bit(z, 64)
  }

  /** The number a word stands for, seven bits at a time. */
  function Value(z: bv64): nat
    decreases z
  {
    if z == 0 then 0 else Seven(z) + 128 * Value(ShiftRight7(z))
  }

  /** `m * 128^j` */
  function Scaled(m: nat, j: nat): nat {
    if j == 0 then m else 128 * Scaled(m, j - 1)
  }

  lemma ShiftSeven(z: bv64)
    ensures Value(z) == Seven(z) + 128 * Value(ShiftRight7(z))
  {
    if z == 0 {
      assert ShiftRight7(z) == 0;
    }
  }

  lemma SevenOfLow(z: bv64)
    ensures Seven(z & 0x7f) == Seven(z)
    ensures Seven(z) == 0 <==> z & 0x7f == 0
  {
    assert (z & 0x7f) & 1 == z & 1 && (z & 0x7f) & 2 == z & 2 && (z & 0x7f) & 4 == z & 4 && (z & 0x7f) & 8 == z & 8;
    assert (z & 0x7f) & 16 == z & 16 && (z & 0x7f) & 32 == z & 32 && (z & 0x7f) & 64 == z & 64;
  }

  lemma SameLow(x: bv64, y: bv64)
    requires x & 0x7f == y & 0x7f
    ensures Seven(x) == Seven(y)
  {
    hide Seven;
    SevenOfLow(x);
    SevenOfLow(y);
  }

  lemma {:induction false} ValueZero(z: bv64)
    ensures Value(z) == 0 <==> z == 0
    decreases z
  {
    if z != 0 {
      ValueZero(ShiftRight7(z));
      SevenOfLow(z);
      assert z & 0x7f != 0 || ShiftRight7(z) != 0;
      hide Seven, ShiftRight7;
    }
  }

  /** A word below 128 is its low digit. */
  lemma OneDigit(d: bv64)
    requires d <= 0x7f
    ensures Value(d) == Seven(d) && ShiftRight7(d) == 0
    ensures d <= 1 ==> Seven(d) <= 1
  {
  }

  // ----- bounds -----

  const TOP: bv64 := 0x8000_0000_0000_0000

  /** `z >> 7 * j` */
  function Drop(z: bv64, j: nat): bv64 {
    if j == 0 then z else Drop(ShiftRight7(z), j - 1)
  }

  lemma {:induction false} DropBound(z: bv64, m: nat, j: nat)
    ensures Value(z) < Scaled(m, j) <==> Value(Drop(z, j)) < m
    decreases j
  {
    hide Seven, ShiftRight7, Value;
    if j > 0 {
      ShiftSeven(z);
      DropBound(ShiftRight7(z), m, j - 1);
    }
  }

  lemma RightShifts(z: bv64)
    ensures ShiftRight7(z) == z >> 7 && ShiftRight7(z >> 7) == z >> 14 && ShiftRight7(z >> 14) == z >> 21
    ensures ShiftRight7(z >> 21) == z >> 28 && ShiftRight7(z >> 28) == z >> 35 && ShiftRight7(z >> 35) == z >> 42
    ensures ShiftRight7(z >> 42) == z >> 49 && ShiftRight7(z >> 49) == z >> 56
  {
  }

  lemma DropEight(z: bv64)
    ensures Drop(z, 8) == z >> 56
  {
    RightShifts(z);
    hide ShiftRight7;
    assert Drop(z >> 35, 3) == Drop(z >> 42, 2) == Drop(z >> 49, 1) == Drop(z >> 56, 0);
    assert Drop(z, 8) == Drop(z >> 7, 7) == Drop(z >> 14, 6) == Drop(z >> 21, 5) == Drop(z >> 28, 4);
  }

  /** A word stands for a number below 2^64, and for one below 2^63 when its top bit is clear. */
  lemma ValueInRange(z: bv64)
    ensures Value(z) < TWO64
    ensures z & TOP == 0 <==> Value(z) < TWO63
  {
    var t := z >> 56;
    assert ShiftRight7(t) <= 1 && (ShiftRight7(t) == 0 <==> z & TOP == 0);
    assert Scaled(1, 8) == 0x100_0000_0000_0000;
    hide Value, Drop, Scaled, Seven, ShiftRight7;
    DropEight(z);
    ShiftSeven(t);
    OneDigit(ShiftRight7(t));
    ValueZero(ShiftRight7(t));
    ScaledUp(128);
    ScaledUp(256);
    DropBound(z, 128, 8);
    DropBound(z, 256, 8);
  }

  lemma ScaledUp(m: nat)
    ensures Scaled(m, 7) == 0x2_0000_0000_0000 * m && Scaled(m, 8) == 0x100_0000_0000_0000 * m
  {
    assert Scaled(m, 1) == 0x80 * m;
    assert Scaled(m, 2) == 0x4000 * m;
    assert Scaled(m, 4) == 0x4000 * Scaled(m, 2);
    assert Scaled(m, 6) == 0x4000 * Scaled(m, 4);
    assert Scaled(m, 8) == 0x4000 * Scaled(m, 6) && Scaled(m, 7) == 0x80 * Scaled(m, 6);
  }

  lemma SmallValue(y: bv64)
    requires Value(y) < 0x200_0000_0000_0000
    ensures y >> 57 == 0
  {
    assert ShiftRight1(y >> 56) == y >> 57;
    hide Value, Drop, Scaled, ShiftRight1;
    ScaledUp(2);
    DropEight(y);
    DropBound(y, 2, 8);
    ShiftOne(y >> 56);
    ValueZero(y >> 57);
  }

  // ----- shifting by one, and the sign -----

  lemma LowHalfBits(x: bv64)
    ensures Bit(ShiftRight1(x), 1) == Bit(x, 2) && Bit(ShiftRight1(x), 2) == Bit(x, 4)
    ensures Bit(ShiftRight1(x), 4) == Bit(x, 8) && Bit(ShiftRight1(x), 8) == Bit(x, 16)
  {
    assert (x >> 1) & 1 == 0 <==> x & 2 == 0;
    assert (x >> 1) & 2 == 0 <==> x & 4 == 0;
    assert (x >> 1) & 4 == 0 <==> x & 8 == 0;
    assert (x >> 1) & 8 == 0 <==> x & 16 == 0;
  }

  lemma HighHalfBits(x: bv64)
    ensures Bit(ShiftRight1(x), 16) == Bit(x, 32) && Bit(ShiftRight1(x), 32) == Bit(x, 64)
    ensures Bit(ShiftRight1(x), 64) == Bit(ShiftRight7(x), 1)
  {
    assert (x >> 1) & 16 == 0 <==> x & 32 == 0;
    assert (x >> 1) & 32 == 0 <==> x & 64 == 0;
    assert (x >> 1) & 64 == 0 <==> (x >> 7) & 1 == 0;
  }

  lemma HalfSeven(x: bv64)
    ensures 2 * Seven(ShiftRight1(x)) + Bit(x, 1) == Seven(x) + 128 * Bit(ShiftRight7(x), 1)
  {
    hide Bit, ShiftRight1, ShiftRight7;
    LowHalfBits(x);
    HighHalfBits(x);
  }

  lemma ShiftsCommute(z: bv64)
    ensures ShiftRight1(ShiftRight7(z)) == ShiftRight7(ShiftRight1(z))
    ensures z == 0 ==> ShiftRight1(z) == 0
  {
  }

  /** `z >> 1` halves. */
  lemma {:induction false} ShiftOne(z: bv64)
    ensures Value(z) == Bit(z, 1) + 2 * Value(ShiftRight1(z))
    decreases z
  {
    ShiftsCommute(z);
    if z != 0 {
      ShiftOne(ShiftRight7(z));
      HalfSeven(z);
      ShiftSeven(ShiftRight1(z));
      hide Seven, Bit, ShiftRight1, ShiftRight7;
    }
  }

  /** `z as i64`: two's complement. */
  function Signed(z: bv64): (n: i64) {
    ValueInRange(z);
    ValueInRange(Not(z));
    NotNot(z);
    if z & TOP == 0 then Value(z) else -1 - Value(Not(z))
  }

  // ----- numbers to words -----

  function SevenFlags(b0: bool, b1: bool, b2: bool, b3: bool, b4: bool, b5: bool, b6: bool): bv64 {
    (if b0 then 1 else 0) | (if b1 then 2 else 0) | (if b2 then 4 else 0) | (if b3 then 8 else 0) |
    (if b4 then 16 else 0) | (if b5 then 32 else 0) | (if b6 then 64 else 0)
  }

  function SevenBits(n: nat): bv64
    requires n < 128
  {
    SevenFlags(n % 2 == 1, n / 2 % 2 == 1, n / 4 % 2 == 1, n / 8 % 2 == 1, n / 16 % 2 == 1, n / 32 % 2 == 1, n / 64 % 2 == 1)
  }

  lemma FlagsOf(b0: bool, b1: bool, b2: bool, b3: bool, b4: bool, b5: bool, b6: bool)
    ensures var z := SevenFlags(b0, b1, b2, b3, b4, b5, b6);
            z <= 0x7f && (z & 1 == 0 <==> !b0) && (z & 2 == 0 <==> !b1) && (z & 4 == 0 <==> !b2) &&
            (z & 8 == 0 <==> !b3) && (z & 16 == 0 <==> !b4) && (z & 32 == 0 <==> !b5) && (z & 64 == 0 <==> !b6)
  {
  }

  lemma BinaryDigits(n: nat)
    requires n < 128
    ensures n == n % 2 + 2 * (n / 2 % 2) + 4 * (n / 4 % 2) + 8 * (n / 8 % 2) +
                 16 * (n / 16 % 2) + 32 * (n / 32 % 2) + 64 * (n / 64 % 2)
  {
    assert n / 4 == n / 2 / 2 && n / 8 == n / 4 / 2 && n / 16 == n / 8 / 2;
    assert n / 32 == n / 16 / 2 && n / 64 == n / 32 / 2 && n / 64 < 2;
  }

  lemma SevenOfFlags(a: nat, b: nat, c: nat, d: nat, e: nat, f: nat, g: nat)
    requires a < 2 && b < 2 && c < 2 && d < 2 && e < 2 && f < 2 && g < 2
    ensures var z := SevenFlags(a == 1, b == 1, c == 1, d == 1, e == 1, f == 1, g == 1);
            z <= 0x7f && Seven(z) == a + 2 * b + 4 * c + 8 * d + 16 * e + 32 * f + 64 * g
  {
    hide SevenFlags;
    FlagsOf(a == 1, b == 1, c == 1, d == 1, e == 1, f == 1, g == 1);
  }

  lemma SevenOfBits(n: nat)
    requires n < 128
    ensures Seven(SevenBits(n)) == n && SevenBits(n) <= 0x7f
  {
    hide SevenFlags;
    BinaryDigits(n);
    SevenOfFlags(n % 2, n / 2 % 2, n / 4 % 2, n / 8 % 2, n / 16 % 2, n / 32 % 2, n / 64 % 2);
  }

  lemma PutBits(d: bv64, y: bv64)
    requires d <= 0x7f && y >> 57 == 0
    ensures Or(d, ShiftLeft7(y)) & 0x7f == d & 0x7f && ShiftRight7(Or(d, ShiftLeft7(y))) == y
  {
  }

  /** A digit in front of a word whose top seven bits are free. */
  lemma PutDigit(d: bv64, y: bv64)
    requires d <= 0x7f && y >> 57 == 0
    ensures Value(Or(d, ShiftLeft7(y))) == Seven(d) + 128 * Value(y)
  {
    hide Value, Seven, Or, ShiftLeft7, ShiftRight7;
    PutBits(d, y);
    SameLow(Or(d, ShiftLeft7(y)), d);
    ShiftSeven(Or(d, ShiftLeft7(y)));
  }

  /** The word for a number, in at most k digits. */
  function Word(n: nat, k: nat): bv64 {
    if k == 0 then 0 else Or(SevenBits(n % 128), ShiftLeft7(Word(n / 128, k - 1)))
  }

  lemma {:induction false} WordValue(n: nat, k: nat)
    requires n < TWO64 && n < Scaled(1, k)
    ensures Value(Word(n, k)) == n
    decreases k
  {
    if k > 0 {
      WordValue(n / 128, k - 1);
      hide Value, Seven, Or, ShiftLeft7, SevenBits;
      SmallValue(Word(n / 128, k - 1));
      SevenOfBits(n % 128);
      PutDigit(SevenBits(n % 128), Word(n / 128, k - 1));
    }
  }

  // ----- accumulating digits with shift and or -----

  lemma SevenShifts(x: bv64)
    ensures ShiftLeft1(ShiftLeft1(ShiftLeft1(ShiftLeft1(ShiftLeft1(ShiftLeft1(ShiftLeft1(x))))))) == ShiftLeft7(x)
  {
  }

  lemma ShiftOnce(d: bv64, s: nat)
    ensures ShiftLeft(d, s + 1) == ShiftLeft1(ShiftLeft(d, s))
  {
  }

  lemma ShiftLeftSeven(d: bv64, s: nat)
    ensures ShiftLeft(d, s + 7) == ShiftLeft7(ShiftLeft(d, s))
  {
    hide ShiftLeft, ShiftLeft1, ShiftLeft7;
    ShiftOnce(d, s); ShiftOnce(d, s + 1); ShiftOnce(d, s + 2); ShiftOnce(d, s + 3);
    ShiftOnce(d, s + 4); ShiftOnce(d, s + 5); ShiftOnce(d, s + 6);
    SevenShifts(ShiftLeft(d, s));
  }

  /** `d << 7 * j`, a digit at a time. */
  function ShiftDigits(d: bv64, j: nat): bv64 {
    if j == 0 then d else ShiftLeft7(ShiftDigits(d, j - 1))
  }

  lemma {:induction false} ShiftByDigits(d: bv64, j: nat)
    ensures ShiftLeft(d, 7 * j) == ShiftDigits(d, j)
    decreases j
  {
    if j > 0 {
      ShiftByDigits(d, j - 1);
      hide ShiftLeft, ShiftLeft7;
      ShiftLeftSeven(d, 7 * (j - 1));
      assert 7 * (j - 1) + 7 == 7 * j;
    }
  }

  lemma {:induction false} ScaledBound(m: nat, j: nat, n: nat)
    requires j <= n
    ensures Scaled(m, j) <= Scaled(m, n)
    decreases n
  {
    if j < n {
      ScaledBound(m, j, n - 1);
    }
  }

  lemma RoomAbove(d: bv64, j: nat)
    requires d <= 0x7f && j <= 8 && (j == 8 ==> d <= 1)
    requires Value(ShiftDigits(d, j)) == Scaled(Seven(d), j)
    ensures ShiftDigits(d, j) >> 57 == 0
  {
    OneDigit(d);
    hide Value, Seven, ShiftDigits, Scaled;
    ScaledUp(Seven(d));
    ScaledBound(Seven(d), j, if j == 8 then 8 else 7);
    SmallValue(ShiftDigits(d, j));
  }

  lemma ShiftedDigit(y: bv64)
    requires y >> 57 == 0
    ensures Value(ShiftLeft7(y)) == 128 * Value(y)
  {
    assert Or(0, ShiftLeft7(y)) == ShiftLeft7(y) && Seven(0) == 0;
    hide Value, Seven, Or, ShiftLeft7;
    PutDigit(0, y);
  }

  /** Shifting a digit left scales it, as long as it fits. */
  lemma {:induction false} ShiftValue(d: bv64, j: nat)
    requires d <= 0x7f && j <= 9 && (j == 9 ==> d <= 1)
    ensures Value(ShiftDigits(d, j)) == Scaled(Seven(d), j)
    decreases j
  {
    hide Value, Seven, ShiftLeft7;
    if j == 0 {
      OneDigit(d);
    } else {
      ShiftValue(d, j - 1);
      RoomAbove(d, j - 1);
      ShiftedDigit(ShiftDigits(d, j - 1));
    }
  }

  /** The digits from the j-th on are zero. */
  predicate Below(i: bv64, j: nat) {
    if j == 0 then i == 0 else Below(ShiftRight7(i), j - 1)
  }

  lemma OrShifts(i: bv64, y: bv64)
    ensures (i | y) >> 7 == (i >> 7) | (y >> 7)
  {
  }

  lemma OrMasks(i: bv64, y: bv64)
    ensures (i | y) & 0x7f == (i & 0x7f) | (y & 0x7f)
  {
  }

  lemma ShiftedBack(y: bv64)
    requires y >> 57 == 0
    ensures (y << 7) >> 7 == y
  {
  }

  lemma LowShiftedOut(y: bv64)
    ensures (y << 7) & 0x7f == 0
  {
  }

  lemma OrZero(x: bv64)
    ensures x | 0 == x
  {
  }

  lemma OrDigit(i: bv64, y: bv64)
    requires y >> 57 == 0
    ensures ShiftRight7(Or(i, ShiftLeft7(y))) == Or(ShiftRight7(i), y)
    ensures Or(i, ShiftLeft7(y)) & 0x7f == i & 0x7f
  {
    OrShifts(i, y << 7);
    ShiftedBack(y);
    OrMasks(i, y << 7);
    LowShiftedOut(y);
    OrZero(i & 0x7f);
  }

  lemma FirstDigit(i: bv64, d: bv64)
    requires Below(i, 0) && d <= 0x7f
    ensures Value(Or(i, d)) == Value(i) + Seven(d) && Below(Or(i, d), 1)
  {
    assert Or(0, d) == d;
    OneDigit(d);
    assert Below(ShiftRight7(d), 0);
    hide Seven, Or, ShiftRight7;
  }

  lemma AddDigitStep(i: bv64, y: bv64, n: nat, m: nat, j: nat)
    requires y >> 57 == 0 && m == 128 * n
    requires Value(Or(ShiftRight7(i), y)) == Value(ShiftRight7(i)) + n && Below(Or(ShiftRight7(i), y), j)
    ensures Value(Or(i, ShiftLeft7(y))) == Value(i) + m && Below(Or(i, ShiftLeft7(y)), j + 1)
  {
    hide Value, Seven, Or, ShiftRight7, ShiftLeft7;
    var z := Or(i, ShiftLeft7(y));
    OrDigit(i, y);
    SameLow(z, i);
    ShiftSeven(z);
    ShiftSeven(i);
  }

  /** Or-ing a digit in above the digits there adds it, scaled. */
  lemma {:induction false} AddDigit(i: bv64, d: bv64, j: nat)
    requires Below(i, j) && d <= 0x7f && j <= 9 && (j == 9 ==> d <= 1)
    ensures Value(Or(i, ShiftDigits(d, j))) == Value(i) + Scaled(Seven(d), j)
    ensures Below(Or(i, ShiftDigits(d, j)), j + 1)
    decreases j
  {
    hide Value, Seven, Or, ShiftRight7, ShiftLeft7;
    if j == 0 {
      FirstDigit(i, d);
    } else {
      ShiftValue(d, j - 1);
      RoomAbove(d, j - 1);
      AddDigit(ShiftRight7(i), d, j - 1);
      AddDigitStep(i, ShiftDigits(d, j - 1), Scaled(Seven(d), j - 1), Scaled(Seven(d), j), j);
    }
  }

  lemma {:induction false} BelowValue(i: bv64, j: nat)
    requires Below(i, j)
    ensures Value(i) < Scaled(1, j)
    decreases j
  {
    hide Value, Seven, ShiftRight7;
    if j == 0 {
      ValueZero(i);
    } else {
      BelowValue(ShiftRight7(i), j - 1);
      ShiftSeven(i);
    }
  }

  lemma LeftShifts(d: bv64)
    ensures ShiftLeft7(d) == d << 7 && ShiftLeft7(d << 7) == d << 14 && ShiftLeft7(d << 14) == d << 21
    ensures ShiftLeft7(d << 21) == d << 28 && ShiftLeft7(d << 28) == d << 35 && ShiftLeft7(d << 35) == d << 42
    ensures ShiftLeft7(d << 42) == d << 49 && ShiftLeft7(d << 49) == d << 56 && ShiftLeft7(d << 56) == d << 63
  {
  }

  lemma NineShifts(d: bv64)
    ensures ShiftDigits(d, 9) == d << 63
  {
    LeftShifts(d);
    hide ShiftLeft7;
    assert ShiftDigits(d, 0) == d && ShiftDigits(d, 1) == ShiftLeft7(ShiftDigits(d, 0));
    assert ShiftDigits(d, 2) == ShiftLeft7(ShiftDigits(d, 1)) && ShiftDigits(d, 3) == ShiftLeft7(ShiftDigits(d, 2));
    assert ShiftDigits(d, 4) == ShiftLeft7(ShiftDigits(d, 3)) && ShiftDigits(d, 5) == ShiftLeft7(ShiftDigits(d, 4));
    assert ShiftDigits(d, 6) == ShiftLeft7(ShiftDigits(d, 5)) && ShiftDigits(d, 7) == ShiftLeft7(ShiftDigits(d, 6));
    assert ShiftDigits(d, 8) == ShiftLeft7(ShiftDigits(d, 7)) && ShiftDigits(d, 9) == ShiftLeft7(ShiftDigits(d, 8));
  }

  /** Of the tenth digit only one bit stays in the word. */
  lemma TenthDigit(d: bv64)
    ensures ShiftDigits(d, 9) == ShiftDigits(d & 1, 9)
    ensures d & 1 <= 1 && Seven(d & 1) == Seven(d) % 2
  {
    NineShifts(d);
    NineShifts(d & 1);
    assert d << 63 == (d & 1) << 63;
    assert Seven(d & 1) == Bit(d, 1);
  }

  // ----- bytes -----

  /** A byte as `u64::from` gives it. */
  function ByteWord(b: Byte): bv64 {
    Or(SevenBits(b % 128), if b >= 128 then 0x80 else 0)
  }

  /** `z as u8` */
  function LowByte(z: bv64): Byte {
    Seven(z) + if z & 0x80 == 0 then 0 else 128
  }

  lemma HighBit(d: bv64, h: bool)
    requires d <= 0x7f
    ensures var z := Or(d, if h then 0x80 else 0);
            z & 0x7f == d && (z & 0x80 == 0 <==> !h) && (z >> 7 == 0 <==> !h)
  {
  }

  lemma ByteWordBits(b: Byte)
    ensures ByteWord(b) & 0x7f <= 0x7f && Seven(ByteWord(b) & 0x7f) == b % 128
    ensures ByteWord(b) & 0x80 == 0 <==> b < 128
    ensures ByteWord(b) >> 7 == 0 <==> b < 128
  {
    hide Seven, SevenBits, Or;
    SevenOfBits(b % 128);
    HighBit(SevenBits(b % 128), b >= 128);
  }

  /** `i | ((b & 0x7f) << shift)` */
  function Accumulate(i: bv64, b: Byte, shift: nat): bv64 {
    Or(i, ShiftLeft(ByteWord(b) & 0x7f, shift))
  }

  /** Accumulating the j-th digit adds it, scaled, modulo 2^64. */
  lemma AccumulateAdds(i: bv64, b: Byte, j: nat)
    requires Below(i, j) && j <= 9
    ensures Value(Accumulate(i, b, 7 * j)) == (Value(i) + Scaled(b % 128, j)) % TWO64
    ensures j <= 8 ==> Below(Accumulate(i, b, 7 * j), j + 1)
  {
    var d := ByteWord(b) & 0x7f;
    ByteWordBits(b);
    hide Value, Seven, Or, ByteWord, ShiftLeft, ShiftDigits, Below, Scaled;
    ShiftByDigits(d, j);
    if j <= 8 {
      AddDigit(i, d, j);
      ValueInRange(Or(i, ShiftDigits(d, j)));
    } else {
      AddTenthDigit(i, d);
    }
  }

  lemma AddTenthDigit(i: bv64, d: bv64)
    requires Below(i, 9) && d <= 0x7f
    ensures Value(Or(i, ShiftDigits(d, 9))) == (Value(i) + Scaled(Seven(d), 9)) % TWO64
  {
    hide Value, Seven, Or, ShiftDigits, Below, Scaled;
    TenthDigit(d);
    AddDigit(i, d & 1, 9);
    BelowValue(i, 9);
    ScaledNine(Seven(d));
    ScaledNine(Seven(d) % 2);
    ScaledNine(1);
  }

  lemma ScaledNine(m: nat)
    ensures Scaled(m, 9) == TWO63 * m
  {
    ScaledUp(m);
  }

  // ----- zig-zag -----

  function Not(z: bv64): bv64 { !z }

  function Xor(x: bv64, y: bv64): bv64 { x ^ y }

  /** `n >> 63` on an i64: all sign bits. */
  function SignBits(n: bv64): bv64 {
    if n & TOP == 0 then 0 else !0
  }

  /** `((n << 1) ^ (n >> 63)) as u64` */
  function ZigZagWord(n: bv64): bv64 {
    Xor(ShiftLeft1(n), SignBits(n))
  }

  /** `-(z & 1)` on an i64: all bits of an odd word. */
  function NegatedLow(z: bv64): bv64 {
    0 - (z & 1)
  }

  /** `((z >> 1) as i64) ^ -((z & 1) as i64)`, the sign rule of one decoder. */
  function UnZigZagXor(z: bv64): bv64 {
    Xor(ShiftRight1(z), NegatedLow(z))
  }

  /** The sign rule of the other: `z >> 1` for an even word, `!(z >> 1)` for an odd one. */
  function UnZigZagNot(z: bv64): bv64 {
    if z & 1 == 0 then ShiftRight1(z) else Not(ShiftRight1(z))
  }

  lemma NegatedLowBits(z: bv64)
    ensures z & 1 == 0 ==> NegatedLow(z) == 0
    ensures z & 1 != 0 ==> NegatedLow(z) == !0
  {
  }

  lemma XorAll(x: bv64)
    ensures Xor(x, 0) == x && Xor(x, !0) == Not(x)
  {
  }

  lemma SignRulesAgree(z: bv64)
    ensures UnZigZagXor(z) == UnZigZagNot(z)
  {
    NegatedLowBits(z);
    XorAll(ShiftRight1(z));
    hide Xor, Not, NegatedLow, ShiftRight1;
  }

  lemma HalfOfDouble(x: bv64)
    requires x & TOP == 0
    ensures ShiftRight1(ShiftLeft1(x)) == x
  {
  }

  lemma DoubleIsEven(x: bv64)
    ensures ShiftLeft1(x) & 1 == 0 && Not(ShiftLeft1(x)) & 1 != 0
  {
  }

  lemma NotDouble(x: bv64)
    requires x & TOP != 0
    ensures Not(ShiftRight1(Not(ShiftLeft1(x)))) == x
  {
  }

  lemma HalfHasNoSign(z: bv64)
    ensures ShiftRight1(z) & TOP == 0 && Not(ShiftRight1(z)) & TOP != 0
  {
  }

  lemma DoubleOfHalf(z: bv64)
    requires z & 1 == 0
    ensures ShiftLeft1(ShiftRight1(z)) == z
  {
  }

  lemma NotDoubleOfNotHalf(z: bv64)
    requires z & 1 == 1
    ensures Not(ShiftLeft1(Not(ShiftRight1(z)))) == z
  {
  }

  lemma OddOrEven(z: bv64)
    ensures z & 1 == 0 || z & 1 == 1
  {
  }

  lemma NotNot(z: bv64)
    ensures Not(Not(z)) == z && (z & TOP == 0 <==> Not(z) & TOP != 0)
  {
  }

  /** The zig-zag word, without the exclusive or. */
  lemma ZigZagBySign(n: bv64)
    ensures ZigZagWord(n) == if n & TOP == 0 then ShiftLeft1(n) else Not(ShiftLeft1(n))
  {
    XorAll(ShiftLeft1(n));
    hide Xor, Not, ShiftLeft1;
  }

  /** On words, decoding inverts encoding. */
  lemma ZigZagWordInverse(n: bv64)
    ensures UnZigZagXor(ZigZagWord(n)) == n
  {
    ZigZagBySign(n);
    SignRulesAgree(ZigZagWord(n));
    DoubleIsEven(n);
    if n & TOP == 0 {
      HalfOfDouble(n);
    } else {
      NotDouble(n);
    }
    hide ZigZagWord, UnZigZagXor, ShiftLeft1, ShiftRight1, Not;
  }

  /** On words, encoding inverts decoding. */
  lemma UnZigZagWordInverse(z: bv64)
    ensures ZigZagWord(UnZigZagXor(z)) == z
  {
    SignRulesAgree(z);
    ZigZagBySign(UnZigZagXor(z));
    HalfHasNoSign(z);
    OddOrEven(z);
    if z & 1 == 0 {
      DoubleOfHalf(z);
    } else {
      NotDoubleOfNotHalf(z);
    }
    hide ZigZagWord, UnZigZagXor, ShiftLeft1, ShiftRight1, Not;
  }

  function ZigZag(n: i64): u64 {
    if n >= 0 then 2 * n else -2 * n - 1
  }

  function UnZigZag(z: u64): i64 {
    if z % 2 == 0 then z / 2 else -(z / 2) - 1
  }

  /** Both sign rules, read as numbers. */
  lemma UnZigZagMeans(z: bv64)
    ensures Value(z) < TWO64 && Signed(UnZigZagNot(z)) == UnZigZag(Value(z))
  {
    hide Value, Signed, Seven, ShiftRight1, Not, UnZigZagNot;
    ValueInRange(z);
    HalfHasNoSign(z);
    SignedOfClear(ShiftRight1(z));
    NotByLow(z);
    ShiftOne(z);
  }

  lemma NotByLow(z: bv64)
    ensures Bit(z, 1) == 0 ==> UnZigZagNot(z) == ShiftRight1(z)
    ensures Bit(z, 1) != 0 ==> Bit(z, 1) == 1 && UnZigZagNot(z) == Not(ShiftRight1(z))
  {
    hide ShiftRight1, Not;
  }

  /** A word with a clear top bit is its own number, and its complement that number's complement. */
  lemma SignedOfClear(w: bv64)
    requires w & TOP == 0
    ensures Signed(w) == Value(w) && Signed(Not(w)) == -1 - Value(w)
  {
    NotNot(w);
    hide Value, Not;
  }

  /** The word of a signed number. */
  function SignedWord(n: i64): bv64 {
    if n >= 0 then Word(n, 10) else Not(Word(-1 - n, 10))
  }

  lemma TenDigitsSuffice(n: nat)
    requires n < TWO63
    ensures Value(Word(n, 10)) == n && Word(n, 10) & TOP == 0
  {
    ScaledNine(1);
    assert Scaled(1, 10) == 128 * Scaled(1, 9);
    hide Value, Word, Scaled;
    WordValue(n, 10);
    ValueInRange(Word(n, 10));
  }

  lemma SignedWordMeans(n: i64)
    ensures Signed(SignedWord(n)) == n
    ensures SignedWord(n) & TOP == 0 <==> n >= 0
  {
    hide Value, Word, Not;
    var m := if n >= 0 then n else -1 - n;
    TenDigitsSuffice(m);
    NotNot(Word(m, 10));
  }

  /** Zig-zag on the word of a number is zig-zag on the number. */
  lemma ZigZagMeans(n: i64)
    ensures Value(ZigZagWord(SignedWord(n))) == ZigZag(n)
  {
    hide Value, Signed, SignedWord, UnZigZagXor, UnZigZagNot, ZigZagWord;
    var w := SignedWord(n);
    SignedWordMeans(n);
    ZigZagWordInverse(w);
    SignRulesAgree(ZigZagWord(w));
    UnZigZagMeans(ZigZagWord(w));
  }
}
