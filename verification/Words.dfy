/** Bytes and 64-bit words, their bits, and the little-endian layout of words in bytes. */
module Words {
  import opened UintBits

  type byte = bv8
  type word = bv64

  /** 1 << c */
  function One(c: nat): word
    requires c < 64
  {
    if c == 0 then 1 else One(c - 1) << 1
  }

  function One8(c: nat): byte
    requires c < 8
  {
    if c == 0 then 1 else One8(c - 1) << 1
  }

  /** b has bit m. */
  predicate OnB(b: byte, m: byte) {
    b & m != 0
  }

  /** Bit c of a byte. */
  predicate ByteBit(b: byte, c: nat)
    requires c < 8
  {
    OnB(b, One8(c))
  }

  /** IsBitSet: bit i of a row of bytes, least significant bit first. */
  predicate IsBitSet(b: seq<byte>, i: nat)
    requires i < 8 * |b|
  {
    ByteBit(b[i / 8], i % 8)
  }

  // ----- the position of a single bit

  predicate OneHot(m: word) {
    m != 0 && m & (m - 1) == 0
  }

  /** The masks of transpose64: MASK32 selects the columns whose 32-bit is set, and so on. */
  const MASK32: word := 0xFFFFFFFF00000000
  const MASK16: word := 0xFFFF0000FFFF0000
  const MASK8: word := 0xFF00FF00FF00FF00
  const MASK4: word := 0xF0F0F0F0F0F0F0F0
  const MASK2: word := 0xcccccccccccccccc
  const MASK1: word := 0xaaaaaaaaaaaaaaaa

  /** The binary digits of c, read off the bit m by the six masks. */
  predicate Position(m: word, c: nat) {
    && OneHot(m)
    && (m & MASK32 != 0 <==> Digit(c, 32))
    && (m & MASK16 != 0 <==> Digit(c, 16))
    && (m & MASK8 != 0 <==> Digit(c, 8))
    && (m & MASK4 != 0 <==> Digit(c, 4))
    && (m & MASK2 != 0 <==> Digit(c, 2))
    && (m & MASK1 != 0 <==> Digit(c, 1))
  }

  /** One step of a binary counter, digit by digit, with carries. */
  predicate CountsUp(d1: bool, d2: bool, d4: bool, d8: bool, d16: bool, d32: bool,
                     e1: bool, e2: bool, e4: bool, e8: bool, e16: bool, e32: bool) {
    && e1 == !d1
    && e2 == (d2 != d1)
    && e4 == (d4 != (d1 && d2))
    && e8 == (d8 != (d1 && d2 && d4))
    && e16 == (d16 != (d1 && d2 && d4 && d8))
    && e32 == (d32 != (d1 && d2 && d4 && d8 && d16))
  }

  /** Shifting a bit left by one counts its position up by one. */
  lemma ShiftCounts(m: word)
    requires OneHot(m) && m != 0x8000_0000_0000_0000
    ensures var n := m << 1;
      && OneHot(n)
      && CountsUp(m & MASK1 != 0, m & MASK2 != 0, m & MASK4 != 0, m & MASK8 != 0, m & MASK16 != 0, m & MASK32 != 0,
                  n & MASK1 != 0, n & MASK2 != 0, n & MASK4 != 0, n & MASK8 != 0, n & MASK16 != 0, n & MASK32 != 0)
  {
  }

  predicate Digit(c: nat, s: nat)
    requires s > 0
  {
    (c / s) % 2 == 1
  }

  /** Counting up flips the digit of weight s just when all lower digits are ones. */
  lemma CounterDigit(c: nat, s: nat)
    requires s > 0
    ensures Digit(c + 1, s) <==> Digit(c, s) != (c % s == s - 1)
    ensures c % (2 * s) == 2 * s - 1 <==> Digit(c, s) && c % s == s - 1
  {
    NextQuotient(c, s);
    DoubleRemainder(c, s);
  }

  lemma NextQuotient(c: nat, s: nat)
    requires s > 0
    ensures (c + 1) / s == if c % s == s - 1 then c / s + 1 else c / s
  {
    var q, r := c / s, c % s;
    assert c == q * s + r;
    if r == s - 1 {
      assert c + 1 == (q + 1) * s + 0;
      DivModUnique(c + 1, s, q + 1, 0);
    } else {
      DivModUnique(c + 1, s, q, r + 1);
    }
  }

  lemma DoubleRemainder(c: nat, s: nat)
    requires s > 0
    ensures c % (2 * s) == (if Digit(c, s) then s else 0) + c % s
  {
    var q, r := c / s, c % s;
    var h := q / 2;
    var hs := h * s;
    assert c == q * s + r;
    if q % 2 == 1 {
      assert q * s == (2 * h + 1) * s == 2 * hs + s;
      assert c == h * (2 * s) + (s + r);
      DivModUnique(c, 2 * s, h, s + r);
    } else {
      assert q * s == (2 * h) * s == 2 * hs;
      assert c == h * (2 * s) + r;
      DivModUnique(c, 2 * s, h, r);
    }
  }

  lemma CounterDigits(c: nat)
    ensures CountsUp(Digit(c, 1), Digit(c, 2), Digit(c, 4), Digit(c, 8), Digit(c, 16), Digit(c, 32),
                     Digit(c + 1, 1), Digit(c + 1, 2), Digit(c + 1, 4), Digit(c + 1, 8), Digit(c + 1, 16),
                     Digit(c + 1, 32))
  {
    CounterDigit(c, 1);
    CounterDigit(c, 2);
    CounterDigit(c, 4);
    CounterDigit(c, 8);
    CounterDigit(c, 16);
    CounterDigit(c, 32);
    hide Digit;
  }

  lemma {:induction false} OnePosition(c: nat)
    requires c < 64
    ensures Position(One(c), c)
  {
    if c > 0 {
      OnePosition(c - 1);
      BelowTop(One(c - 1), c - 1);
      ShiftCounts(One(c - 1));
      CounterDigits(c - 1);
    }
  }

  /** The top bit is at 63 and nowhere below. */
  lemma BelowTop(m: word, c: nat)
    requires Position(m, c) && c < 63
    ensures m != 0x8000_0000_0000_0000
  {
    CounterDigit(c, 1);
    CounterDigit(c, 2);
    CounterDigit(c, 4);
    CounterDigit(c, 8);
    CounterDigit(c, 16);
    CounterDigit(c, 32);
  }

  // ----- operators on words, and what they do to one bit

  /** w has bit m. */
  predicate On(w: word, m: word) {
    w & m != 0
  }

  /** Bit c of a word, counted from the least significant one. */
  predicate WordBit(w: word, c: nat)
    requires c < 64
  {
    On(w, One(c))
  }

  function XorW(x: word, y: word): word {
    x ^ y
  }

  function AndW(x: word, y: word): word {
    x & y
  }

  predicate Width(width: nat) {
    width in {1, 2, 4, 8, 16, 32}
  }

  /** `w << width` for the six widths that occur. */
  function Shl(w: word, width: nat): word
    requires Width(width)
  {
    match width
    case 32 => w << 32
    case 16 => w << 16
    case 8 => w << 8
    case 4 => w << 4
    case 2 => w << 2
    case 1 => w << 1
  }

  /** `w >> width` */
  function ShrW(w: word, width: nat): word
    requires Width(width)
  {
    match width
    case 32 => w >> 32
    case 16 => w >> 16
    case 8 => w >> 8
    case 4 => w >> 4
    case 2 => w >> 2
    case 1 => w >> 1
  }

  /** The mask that goes with each width. */
  function MaskOf(width: nat): word
    requires Width(width)
  {
    match width
    case 32 => MASK32
    case 16 => MASK16
    case 8 => MASK8
    case 4 => MASK4
    case 2 => MASK2
    case 1 => MASK1
  }

  lemma XorBit(x: word, y: word, m: word)
    requires OneHot(m)
    ensures On(x ^ y, m) <==> On(x, m) != On(y, m)
  {
  }

  lemma AndBit(x: word, y: word, m: word)
    requires OneHot(m)
    ensures On(x & y, m) <==> On(x, m) && On(y, m)
  {
  }

  lemma XorAt(x: word, y: word, m: word)
    requires OneHot(m)
    ensures On(XorW(x, y), m) <==> On(x, m) != On(y, m)
  {
    hide OneHot, On;
    XorBit(x, y, m);
  }

  lemma AndAt(x: word, y: word, m: word)
    requires OneHot(m)
    ensures On(AndW(x, y), m) <==> On(x, m) && On(y, m)
  {
    hide OneHot, On;
    AndBit(x, y, m);
  }

  /** A bit m outside the mask, the bit n that is `width` to the left of it, and shifted words. */
  predicate Shifts(x: word, left: word, right: word, masked: word, mask: word, m: word, n: word) {
    && OneHot(n)
    && On(mask, n)
    && (On(left, n) <==> On(x, m))
    && (On(right, m) <==> On(x, n))
    && !On(masked, n)
  }

  // For width 32 one lemma for each fact.

  lemma Partner32(m: word)
    requires OneHot(m) && !On(MASK32, m)
    ensures OneHot(m << 32) && On(MASK32, m << 32)
  {
  }

  lemma Left32(x: word, m: word)
    requires OneHot(m) && !On(MASK32, m)
    ensures On(x << 32, m << 32) <==> On(x, m)
  {
  }

  lemma Right32(x: word, m: word)
    requires OneHot(m) && !On(MASK32, m)
    ensures On(x >> 32, m) <==> On(x, m << 32)
  {
  }

  lemma Masked32(x: word, m: word)
    requires OneHot(m) && !On(MASK32, m)
    ensures !On((x & MASK32) >> 32, m << 32)
  {
  }

  lemma Shifts32(x: word, m: word)
    requires OneHot(m) && !On(MASK32, m)
    ensures Shifts(x, x << 32, x >> 32, (x & MASK32) >> 32, MASK32, m, m << 32)
  {
    hide OneHot, On;
    Partner32(m);
    Left32(x, m);
    Right32(x, m);
    Masked32(x, m);
  }

  lemma Shifts16(x: word, m: word)
    requires OneHot(m) && !On(MASK16, m)
    ensures Shifts(x, x << 16, x >> 16, (x & MASK16) >> 16, MASK16, m, m << 16)
  {
  }

  lemma Shifts8(x: word, m: word)
    requires OneHot(m) && !On(MASK8, m)
    ensures Shifts(x, x << 8, x >> 8, (x & MASK8) >> 8, MASK8, m, m << 8)
  {
  }

  lemma Shifts4(x: word, m: word)
    requires OneHot(m) && !On(MASK4, m)
    ensures Shifts(x, x << 4, x >> 4, (x & MASK4) >> 4, MASK4, m, m << 4)
  {
  }

  lemma Shifts2(x: word, m: word)
    requires OneHot(m) && !On(MASK2, m)
    ensures Shifts(x, x << 2, x >> 2, (x & MASK2) >> 2, MASK2, m, m << 2)
  {
  }

  lemma Shifts1(x: word, m: word)
    requires OneHot(m) && !On(MASK1, m)
    ensures Shifts(x, x << 1, x >> 1, (x & MASK1) >> 1, MASK1, m, m << 1)
  {
  }

  lemma ShiftAt(x: word, m: word, width: nat)
    requires Width(width) && OneHot(m) && !On(MaskOf(width), m)
    ensures Shifts(x, Shl(x, width), ShrW(x, width), ShrW(AndW(x, MaskOf(width)), width), MaskOf(width),
                   m, Shl(m, width))
  {
    hide OneHot, On, Shifts;
    if
    case width == 32 => Shifts32(x, m);
    case width == 16 => Shifts16(x, m);
    case width == 8 => Shifts8(x, m);
    case width == 4 => Shifts4(x, m);
    case width == 2 => Shifts2(x, m);
    case width == 1 => Shifts1(x, m);
  }

  // ----- the masked exchange of transpose64

  /** The two words that `swap` leaves for a and b. */
  function Swapped(a: word, b: word, mask: word, width: nat): (word, word)
    requires Width(width)
  {
    var t := AndW(XorW(a, Shl(b, width)), mask);
    (XorW(a, t), XorW(b, ShrW(t, width)))
  }

  /** `swap` on a bit m whose column has the width bit clear and on the bit n that is `width`
      further left: bit n of the first word and bit m of the second change places. */
  lemma SwapAt(a: word, b: word, m: word, width: nat)
    requires Width(width) && OneHot(m) && !On(MaskOf(width), m)
    ensures var (a', b') := Swapped(a, b, MaskOf(width), width);
      var n := Shl(m, width);
      && (On(a', m) <==> On(a, m))
      && (On(a', n) <==> On(b, m))
      && (On(b', m) <==> On(a, n))
      && (On(b', n) <==> On(b, n))
  {
    hide OneHot, On, MaskOf, Shl, ShrW, XorW, AndW, Width;
    var mask, n, s := MaskOf(width), Shl(m, width), Shl(b, width);
    var u := XorW(a, s);
    var t := AndW(u, mask);
    var d := ShrW(t, width);
    ShiftAt(b, m, width);
    ShiftAt(t, m, width);
    ShiftAt(u, m, width);
    XorAt(a, s, n);
    AndAt(u, mask, m);
    AndAt(u, mask, n);
    XorAt(a, t, m);
    XorAt(a, t, n);
    XorAt(b, d, m);
    XorAt(b, d, n);
  }

  lemma MaskDigit(c: nat, width: nat)
    requires c < 64 && Width(width)
    ensures On(MaskOf(width), One(c)) <==> Digit(c, width)
  {
    OnePosition(c);
  }

  lemma OneShift(c: nat, s: nat)
    requires Width(s) && c + s < 64
    ensures One(c + s) == Shl(One(c), s)
    decreases s
  {
    hide Shl, One;
    if s == 1 {
      OneNext(c);
    } else {
      OneShift(c, s / 2);
      OneShift(c + s / 2, s / 2);
      ShlTwice(One(c), s / 2);
    }
  }

  lemma OneNext(c: nat)
    requires c < 63
    ensures One(c + 1) == Shl(One(c), 1)
  {
  }

  lemma ShlTwice(w: word, s: nat)
    requires s in {1, 2, 4, 8, 16}
    ensures Shl(Shl(w, s), s) == Shl(w, 2 * s)
  {
    if
    case s == 1 =>
    case s == 2 =>
    case s == 4 =>
    case s == 8 =>
    case s == 16 =>
  }

  /** Adding or taking away s steps the quotient by s. */
  lemma StepQuotient(c: nat, s: nat)
    requires s > 0
    ensures (c + s) / s == c / s + 1
    ensures c >= s ==> (c - s) / s == c / s - 1
    ensures c / s >= 1 ==> c >= s
  {
    var q, r := c / s, c % s;
    assert c == q * s + r;
    assert c + s == (q + 1) * s + r;
    DivModUnique(c + s, s, q + 1, r);
    if c >= s {
      assert c - s == (q - 1) * s + r;
      DivModUnique(c - s, s, q - 1, r);
    }
  }

  lemma StepDigit(c: nat, s: nat)
    requires s > 0
    ensures Digit(c + s, s) <==> !Digit(c, s)
    ensures c >= s ==> (Digit(c - s, s) <==> !Digit(c, s))
    ensures Digit(c, s) ==> c >= s
  {
    StepQuotient(c, s);
  }

  lemma QuotientBelow(c: nat, s: nat, n: nat)
    requires s > 0
    ensures c < n * s <==> c / s < n
  {
    var q := c / s;
    assert c == q * s + c % s;
    if q < n {
      MulMonotone(q + 1, n, s);
    } else {
      MulMonotone(n, q, s);
    }
  }

  lemma MulMonotone(a: nat, b: nat, s: nat)
    requires a <= b
    ensures a * s <= b * s
  {
  }

  /** In a range of an even number of blocks of s columns, a column with digit s set has a partner s
      further right and one with digit s clear a partner s further left. */
  lemma DigitPartner(c: nat, s: nat, h: nat, n: nat)
    requires s > 0 && n == h * s && h % 2 == 0 && c < n
    ensures Digit(c, s) ==> c >= s && !Digit(c - s, s)
    ensures !Digit(c, s) ==> c + s < n && Digit(c + s, s)
  {
    StepDigit(c, s);
    EvenRange(c, s, h);
    hide Digit;
  }

  lemma EvenRange(c: nat, s: nat, h: nat)
    requires s > 0 && h % 2 == 0 && c < h * s
    ensures !Digit(c, s) ==> c + s < h * s
  {
    QuotientBelow(c, s, h);
    if !Digit(c, s) {
      var q := c / s;
      assert q + 2 <= h;
      MulMonotone(q + 2, h, s);
      assert (q + 2) * s == q * s + 2 * s;
      assert c == q * s + c % s;
    }
  }

  lemma DigitRange(c: nat, width: nat)
    requires c < 64 && Width(width)
    ensures Digit(c, width) ==> c >= width && !Digit(c - width, width)
    ensures !Digit(c, width) ==> c + width < 64 && Digit(c + width, width)
  {
    DigitPartner(c, width, 64 / width, 64);
  }

  /** Column c of two words before and after `swap`: a column whose width bit is set goes, for the
      first word, to what the second had `width` columns before; the others the other way round. */
  ghost predicate ColumnSwapped(a: word, b: word, a': word, b': word, width: nat, c: nat)
    requires Width(width) && c < 64
  {
    if Digit(c, width) then
      c >= width && WordBit(a', c) == WordBit(b, c - width) && WordBit(b', c) == WordBit(b, c)
    else
      c + width < 64 && WordBit(a', c) == WordBit(a, c) && WordBit(b', c) == WordBit(a, c + width)
  }

  /** `swap` column by column. */
  lemma SwapBits(a: word, b: word, width: nat, c: nat)
    requires Width(width) && c < 64
    ensures var (a', b') := Swapped(a, b, MaskOf(width), width);
      ColumnSwapped(a, b, a', b', width, c)
  {
    hide OneHot, On, MaskOf, Shl, Swapped, Digit, Width;
    DigitRange(c, width);
    var low := if Digit(c, width) then c - width else c;
    MaskDigit(low, width);
    OneIsHot(low);
    OneShift(low, width);
    SwapAt(a, b, One(low), width);
  }

  lemma OneIsHot(c: nat)
    requires c < 64
    ensures OneHot(One(c))
  {
    OnePosition(c);
  }
}
