/** The 512 by 512 bit matrix of internal/util/bitvect.go and its in-place transpose: three
    stages that exchange blocks of words, then six stages of masked exchanges in every 64 by 64
    tile. A stage of width w gives a row index the w-digit of the column index and the column
    index the w-digit of the row index. */
module BitMatrix {
  import opened UintBits
  import opened Words
  import opened LittleEndian

  const SIZE: nat := 512
  const WORDS: nat := 4096

  // ----- indices

  /** r with its w-digit replaced by that of c. */
  function TakeDigit(r: nat, c: nat, w: nat): int
    requires w > 0
  {
    if Digit(r, w) == Digit(c, w) then r
    else if Digit(c, w) then r + w
    else r - w
  }

  /** The low part of r, below weight w, under the high part of c. */
  function Mix(r: nat, c: nat, w: nat): (m: nat)
    requires w > 0
  {
    c - c % w + r % w
  }

  lemma TakeDigitRange(r: nat, c: nat, w: nat, h: nat, n: nat)
    requires w > 0 && n == h * w && h % 2 == 0 && r < n
    ensures 0 <= TakeDigit(r, c, w) < n
  {
    DigitPartner(r, w, h, n);
  }

  /** Adding or taking away w keeps the remainder by w. */
  lemma StepRemainder(c: nat, w: nat)
    requires w > 0
    ensures (c + w) % w == c % w
    ensures c >= w ==> (c - w) % w == c % w
  {
    var q, r := c / w, c % w;
    assert c == q * w + r;
    assert c + w == (q + 1) * w + r;
    DivModUnique(c + w, w, q + 1, r);
    if c >= w {
      assert c - w == (q - 1) * w + r;
      DivModUnique(c - w, w, q - 1, r);
    }
  }

  /** What TakeDigit does to the parts of r. */
  lemma TakeDigitParts(r: nat, c: nat, w: nat)
    requires w > 0 && TakeDigit(r, c, w) >= 0
    ensures var r' := TakeDigit(r, c, w);
      && r' % w == r % w
      && (Digit(r', w) <==> Digit(c, w))
      && r' - r' % (2 * w) == r - r % (2 * w)
      && r' % (2 * w) == (if Digit(c, w) then w else 0) + r % w
  {
    hide Digit;
    var r' := TakeDigit(r, c, w);
    StepDigit(r, w);
    StepRemainder(r, w);
    DoubleRemainder(r, w);
    DoubleRemainder(r', w);
  }

  /** One more stage. */
  lemma MixStep(r: nat, c: nat, w: nat)
    requires w > 0 && TakeDigit(r, c, w) >= 0 && TakeDigit(c, r, w) >= 0
    ensures Mix(TakeDigit(r, c, w), TakeDigit(c, r, w), 2 * w) == Mix(r, c, w)
  {
    hide Digit, TakeDigit;
    TakeDigitParts(r, c, w);
    TakeDigitParts(c, r, w);
    DoubleRemainder(c, w);
  }

  // ----- a 64 by 64 tile: every eighth word of a block of 64 rows

  predicate TileBit(t: seq<word>, r: int, c: int)
    requires |t| == 64
  {
    0 <= r < 64 && 0 <= c < 64 && WordBit(t[r], c)
  }

  /** Row r of a tile after the exchanges of one width. */
  function RowAfter(t: seq<word>, r: nat, width: nat): word
    requires |t| == 64 && r < 64 && Width(width)
  {
    DigitRange(r, width);
    if Digit(r, width) then Swapped(t[r - width], t[r], MaskOf(width), width).1
    else Swapped(t[r], t[r + width], MaskOf(width), width).0
  }

  /** The row with the width digit clear in the pair to which row r belongs. */
  function FirstOfPair(r: nat, width: nat): int
    requires width > 0
  {
    if Digit(r, width) then r - width else r
  }

  function TileAfter(t: seq<word>, width: nat): (t': seq<word>)
    requires |t| == 64 && Width(width)
    ensures |t'| == 64
  {
    seq(64, r requires 0 <= r < 64 => RowAfter(t, r, width))
  }

  lemma TileAfterRows(t: seq<word>, width: nat, r: nat)
    requires |t| == 64 && Width(width) && r + width < 64 && !Digit(r, width) && Digit(r + width, width)
    ensures var (x, y) := Swapped(t[r], t[r + width], MaskOf(width), width);
            TileAfter(t, width)[r] == x && TileAfter(t, width)[r + width] == y
  {
    hide Swapped, MaskOf;
  }

  /** Bit (r, c) of a tile after all exchanges of width 32, ..., w. */
  ghost predicate TileMixed(t0: seq<word>, t: seq<word>, w: nat)
    requires |t0| == |t| == 64 && w > 0
  {
    forall r: nat, c: nat :: r < 64 && c < 64 ==> TileBit(t, r, c) == TileBit(t0, Mix(r, c, w), Mix(c, r, w))
  }

  /** One exchange moves bit (r, c) as TakeDigit says. */
  lemma RowAfterBit(t: seq<word>, r: nat, c: nat, w: nat)
    requires |t| == 64 && r < 64 && c < 64 && Width(w)
    ensures WordBit(RowAfter(t, r, w), c) == TileBit(t, TakeDigit(r, c, w), TakeDigit(c, r, w))
  {
    hide Digit, Swapped, MaskOf, WordBit, Width;
    DigitRange(r, w);
    DigitRange(c, w);
    if Digit(r, w) {
      SwapBits(t[r - w], t[r], w, c);
    } else {
      SwapBits(t[r], t[r + w], w, c);
    }
  }

  lemma TileStart(t: seq<word>)
    requires |t| == 64
    ensures TileMixed(t, t, 64)
  {
  }

  lemma TileEnd(t0: seq<word>, t: seq<word>)
    requires |t0| == |t| == 64 && TileMixed(t0, t, 1)
    ensures TileTransposed(t0, t)
  {
  }

  lemma TakeDigitIn64(r: nat, c: nat, w: nat)
    requires r < 64 && c < 64 && Width(w)
    ensures 0 <= TakeDigit(r, c, w) < 64
  {
    TakeDigitRange(r, c, w, 64 / w, 64);
  }

  lemma TileStepBit(t0: seq<word>, t: seq<word>, r: nat, c: nat, w: nat)
    requires |t0| == |t| == 64 && Width(w) && TileMixed(t0, t, 2 * w) && r < 64 && c < 64
    ensures WordBit(RowAfter(t, r, w), c) == TileBit(t0, Mix(r, c, w), Mix(c, r, w))
  {
    assert w > 0;
    hide RowAfter, Mix, TakeDigit, WordBit, TileBit, Width;
    RowAfterBit(t, r, c, w);
    TakeDigitIn64(r, c, w);
    TakeDigitIn64(c, r, w);
    MixStep(r, c, w);
    MixStep(c, r, w);
  }

  lemma TileStep(t0: seq<word>, t: seq<word>, w: nat)
    requires |t0| == |t| == 64 && Width(w) && TileMixed(t0, t, 2 * w)
    ensures TileMixed(t0, TileAfter(t, w), w)
  {
    var t' := TileAfter(t, w);
    forall r: nat, c: nat | r < 64 && c < 64
      ensures TileBit(t', r, c) == TileBit(t0, Mix(r, c, w), Mix(c, r, w))
    {
      hide RowAfter, Mix, WordBit, Width;
      TileStepBit(t0, t, r, c, w);
    }
  }

  // ----- the whole matrix: row i in words 8 * i to 8 * i + 7

  predicate At(s: seq<word>, i: int, j: int)
    requires |s| == WORDS
  {
    0 <= i < SIZE && 0 <= j < SIZE && WordBit(s[8 * i + j / 64], j % 64)
  }

  /** s' is the transpose of s. */
  ghost predicate Transposed(s: seq<word>, s': seq<word>)
    requires |s| == |s'| == WORDS
  {
    forall i: nat, j: nat :: i < SIZE && j < SIZE ==> At(s', i, j) == At(s, j, i)
  }

  /** The word of row r of a tile. */
  function TileWord(vblock: nat, col: nat, r: nat): nat {
    512 * vblock + 8 * r + col
  }

  predicate InTile(p: nat, vblock: nat, col: nat) {
    p / 512 == vblock && p % 8 == col
  }

  lemma TileWordInTile(vblock: nat, col: nat, r: nat)
    requires vblock < 8 && col < 8 && r < 64
    ensures TileWord(vblock, col, r) < WORDS && InTile(TileWord(vblock, col, r), vblock, col)
  {
    DivModUnique(TileWord(vblock, col, r), 512, vblock, 8 * r + col);
    DivModUnique(TileWord(vblock, col, r), 8, 64 * vblock + r, col);
  }

  function Tile<T>(s: seq<T>, vblock: nat, col: nat): (t: seq<T>)
    requires |s| == WORDS && vblock < 8 && col < 8
    ensures |t| == 64
  {
    seq(64, r requires 0 <= r < 64 => s[TileWord(vblock, col, r)])
  }

  ghost predicate SameOutside<T>(s: seq<T>, s': seq<T>, vblock: nat, col: nat)
    requires |s| == |s'| == WORDS
  {
    forall p: nat :: p < WORDS && !InTile(p, vblock, col) ==> s'[p] == s[p]
  }

  lemma SameOutsideItself<T>(s: seq<T>, vblock: nat, col: nat)
    requires |s| == WORDS
    ensures SameOutside(s, s, vblock, col)
  {
  }

  lemma SameOutsideTransitive<T>(s: seq<T>, s': seq<T>, s'': seq<T>, vblock: nat, col: nat)
    requires |s| == |s'| == |s''| == WORDS && SameOutside(s, s', vblock, col) && SameOutside(s', s'', vblock, col)
    ensures SameOutside(s, s'', vblock, col)
  {
  }

  /** One of the six stages of a tile, in place. */
  lemma Stage(s0: seq<word>, s: seq<word>, s': seq<word>, vblock: nat, col: nat, w: nat)
    requires |s0| == |s| == |s'| == WORDS && vblock < 8 && col < 8 && Width(w)
    requires TileMixed(Tile(s0, vblock, col), Tile(s, vblock, col), 2 * w) && SameOutside(s0, s, vblock, col)
    requires Tile(s', vblock, col) == TileAfter(Tile(s, vblock, col), w) && SameOutside(s, s', vblock, col)
    ensures TileMixed(Tile(s0, vblock, col), Tile(s', vblock, col), w) && SameOutside(s0, s', vblock, col)
  {
    hide SameOutside, TileMixed, Tile, TileAfter;
    TileStep(Tile(s0, vblock, col), Tile(s, vblock, col), w);
    SameOutsideTransitive(s0, s, s', vblock, col);
  }

  // The loop of Exchange: the pairs whose first row is below r have their final words. These
  // facts hold for words of any type, so the proofs do not look inside them.

  ghost predicate Exchanged<T>(s0: seq<T>, s: seq<T>, goal: seq<T>, vblock: nat, col: nat, width: nat, r: int)
    requires |s0| == WORDS && |goal| == 64 && vblock < 8 && col < 8 && width > 0
  {
    && |s| == WORDS
    && SameOutside(s0, s, vblock, col)
    && forall k: nat :: k < 64 ==>
         Tile(s, vblock, col)[k] == if FirstOfPair(k, width) < r then goal[k] else Tile(s0, vblock, col)[k]
  }

  lemma ExchangeStart<T>(s0: seq<T>, goal: seq<T>, vblock: nat, col: nat, width: nat)
    requires |s0| == WORDS && |goal| == 64 && vblock < 8 && col < 8 && Width(width)
    ensures Exchanged(s0, s0, goal, vblock, col, width, 0)
  {
    forall k: nat | k < 64
      ensures FirstOfPair(k, width) >= 0
    {
      DigitRange(k, width);
    }
  }

  lemma ExchangeBefore<T>(s0: seq<T>, s: seq<T>, goal: seq<T>, vblock: nat, col: nat, width: nat, r: nat)
    requires |s0| == WORDS && |goal| == 64 && vblock < 8 && col < 8 && width > 0
    requires Exchanged(s0, s, goal, vblock, col, width, r) && r + width < 64
    requires !Digit(r, width) && Digit(r + width, width)
    ensures s[TileWord(vblock, col, r)] == Tile(s0, vblock, col)[r]
    ensures s[TileWord(vblock, col, r + width)] == Tile(s0, vblock, col)[r + width]
  {
    assert Tile(s, vblock, col)[r] == Tile(s0, vblock, col)[r];
    assert Tile(s, vblock, col)[r + width] == Tile(s0, vblock, col)[r + width];
  }

  lemma ExchangeStep<T>(s0: seq<T>, s: seq<T>, goal: seq<T>, vblock: nat, col: nat, width: nat, r: nat)
    requires |s0| == WORDS && |goal| == 64 && vblock < 8 && col < 8 && width > 0
    requires Exchanged(s0, s, goal, vblock, col, width, r) && r + width < 64
    requires !Digit(r, width) && Digit(r + width, width)
    ensures Exchanged(s0, s[TileWord(vblock, col, r) := goal[r]][TileWord(vblock, col, r + width) := goal[r + width]],
                      goal, vblock, col, width, r + 1)
  {
    hide InTile, Digit, Tile, TileWord;
    var a, b := TileWord(vblock, col, r), TileWord(vblock, col, r + width);
    TileWordInTile(vblock, col, r);
    TileWordInTile(vblock, col, r + width);
    var s1 := s[a := goal[r]];
    var s' := s1[b := goal[r + width]];
    forall k: nat | k < 64
      ensures Tile(s', vblock, col)[k] == if FirstOfPair(k, width) < r + 1 then goal[k] else Tile(s0, vblock, col)[k]
    {
      TileUpdate(s, vblock, col, r, goal[r], k);
      TileUpdate(s1, vblock, col, r + width, goal[r + width], k);
    }
  }

  lemma TileUpdate<T>(s: seq<T>, vblock: nat, col: nat, r: nat, x: T, k: nat)
    requires |s| == WORDS && vblock < 8 && col < 8 && r < 64 && k < 64
    ensures Tile(s[TileWord(vblock, col, r) := x], vblock, col)[k] == if k == r then x else Tile(s, vblock, col)[k]
  {
  }

  lemma GroupRange(base: nat, width: nat)
    requires Width(width) && base < 64 && base % (2 * width) == 0
    ensures base + 2 * width <= 64 && (base + 2 * width) % (2 * width) == 0
  {
    if
    case width == 32 =>
    case width == 16 =>
    case width == 8 =>
    case width == 4 =>
    case width == 2 =>
    case width == 1 =>
  }

  /** No pair starts at a row with the width digit set. */
  lemma ExchangeSkip<T>(s0: seq<T>, s: seq<T>, goal: seq<T>, vblock: nat, col: nat, width: nat, base: nat)
    requires |s0| == WORDS && |goal| == 64 && vblock < 8 && col < 8 && Width(width)
    requires Exchanged(s0, s, goal, vblock, col, width, base + width) && base % (2 * width) == 0
    ensures Exchanged(s0, s, goal, vblock, col, width, base + 2 * width)
  {
    forall k: nat | k < 64
      ensures !(base + width <= FirstOfPair(k, width) < base + 2 * width)
    {
      DigitRange(k, width);
      var f := FirstOfPair(k, width);
      if base + width <= f < base + 2 * width {
        PairRows(0, base, f - base - width, width);
        StepDigit(f - width, width);
      }
    }
    hide FirstOfPair, Tile;
  }

  lemma ExchangeEnd<T>(s0: seq<T>, s: seq<T>, goal: seq<T>, vblock: nat, col: nat, width: nat, r: int)
    requires |s0| == WORDS && |goal| == 64 && vblock < 8 && col < 8 && width > 0
    requires r >= 64 && Exchanged(s0, s, goal, vblock, col, width, r)
    ensures Tile(s, vblock, col) == goal
  {
  }

  // ----- the stages that exchange blocks of n words and 64 * n rows, for n = 4, 2, 1

  predicate BlockWords(n: nat) {
    n in {1, 2, 4}
  }

  function WordAt<T>(s: seq<T>, i: nat, k: nat): T
    requires |s| == WORDS && i < SIZE && k < 8
  {
    s[8 * i + k]
  }

  lemma BlockPartner(i: nat, k: nat, n: nat)
    requires i < SIZE && k < 8 && BlockWords(n)
    ensures Digit(i, 64 * n) ==> i >= 64 * n && !Digit(i - 64 * n, 64 * n)
    ensures !Digit(i, 64 * n) ==> i + 64 * n < SIZE && Digit(i + 64 * n, 64 * n)
    ensures Digit(k, n) ==> k >= n && !Digit(k - n, n)
    ensures !Digit(k, n) ==> k + n < 8 && Digit(k + n, n)
  {
    DigitPartner(i, 64 * n, 8 / n, SIZE);
    DigitPartner(k, n, 8 / n, 8);
  }

  /** Word k of row i after such a stage. */
  function WordAfter<T>(s: seq<T>, i: nat, k: nat, n: nat): T
    requires |s| == WORDS && i < SIZE && k < 8 && BlockWords(n)
  {
    BlockPartner(i, k, n);
    if Digit(i, 64 * n) == Digit(k, n) then WordAt(s, i, k)
    else if Digit(k, n) then WordAt(s, i + 64 * n, k - n)
    else WordAt(s, i - 64 * n, k + n)
  }

  ghost predicate BlocksExchanged<T>(s: seq<T>, s': seq<T>, n: nat)
    requires |s| == WORDS && BlockWords(n)
  {
    && |s'| == WORDS
    && forall i: nat, k: nat :: i < SIZE && k < 8 ==> WordAt(s', i, k) == WordAfter(s, i, k, n)
  }

  /** The columns of word k: their digit of weight 64 * n is the digit of k of weight n. */
  lemma ColumnDigit(j: nat, n: nat)
    requires n > 0
    ensures Digit(j, 64 * n) <==> Digit(j / 64, n)
  {
    var k, c := j / 64, j % 64;
    var q, r := k / n, k % n;
    assert k == q * n + r;
    assert j == q * (64 * n) + (64 * r + c);
    DivModUnique(j, 64 * n, q, 64 * r + c);
  }

  /** A block stage moves bits as TakeDigit says. */
  lemma BlocksExchangedBits(s: seq<word>, s': seq<word>, n: nat, i: nat, j: nat)
    requires |s| == WORDS && BlockWords(n) && BlocksExchanged(s, s', n) && i < SIZE && j < SIZE
    ensures At(s', i, j) == At(s, TakeDigit(i, j, 64 * n), TakeDigit(j, i, 64 * n))
  {
    assert n > 0;
    hide Digit, BlockWords, WordBit;
    ColumnDigit(j, n);
    BlockPartner(i, j / 64, n);
    BlockColumn(j, n);
    assert WordAt(s', i, j / 64) == WordAfter(s, i, j / 64, n);
  }

  lemma BlockColumn(j: nat, n: nat)
    ensures (j + 64 * n) / 64 == j / 64 + n && (j + 64 * n) % 64 == j % 64
    ensures (j - 64 * n) / 64 == j / 64 - n && (j - 64 * n) % 64 == j % 64
  {
  }

  /** Bit (i, j) after all stages of width 256, ..., w. */
  ghost predicate Mixed(s0: seq<word>, s: seq<word>, w: nat)
    requires |s0| == |s| == WORDS && w > 0
  {
    forall i: nat, j: nat :: i < SIZE && j < SIZE ==> At(s, i, j) == At(s0, Mix(i, j, w), Mix(j, i, w))
  }

  lemma MixWhole(i: nat, j: nat)
    requires i < SIZE && j < SIZE
    ensures Mix(i, j, SIZE) == i
  {
    DivModUnique(i, SIZE, 0, i);
    DivModUnique(j, SIZE, 0, j);
  }

  lemma MixedStart(s: seq<word>)
    requires |s| == WORDS
    ensures Mixed(s, s, SIZE)
  {
    hide At, Mix;
    forall i: nat, j: nat | i < SIZE && j < SIZE
      ensures At(s, i, j) == At(s, Mix(i, j, SIZE), Mix(j, i, SIZE))
    {
      MixWhole(i, j);
      MixWhole(j, i);
    }
  }

  lemma TakeDigitIn512(r: nat, c: nat, n: nat)
    requires r < SIZE && c < SIZE && BlockWords(n)
    ensures 0 <= TakeDigit(r, c, 64 * n) < SIZE
  {
    TakeDigitRange(r, c, 64 * n, 8 / n, SIZE);
  }

  lemma MixedStep(s0: seq<word>, s: seq<word>, s': seq<word>, n: nat)
    requires |s0| == |s| == WORDS && BlockWords(n) && Mixed(s0, s, 128 * n) && BlocksExchanged(s, s', n)
    ensures Mixed(s0, s', 64 * n)
  {
    forall i: nat, j: nat | i < SIZE && j < SIZE
      ensures At(s', i, j) == At(s0, Mix(i, j, 64 * n), Mix(j, i, 64 * n))
    {
      assert n > 0;
      hide At, Mix, TakeDigit, BlockWords, BlocksExchanged;
      BlocksExchangedBits(s, s', n, i, j);
      TakeDigitIn512(i, j, n);
      TakeDigitIn512(j, i, n);
      MixStep(i, j, 64 * n);
      MixStep(j, i, 64 * n);
    }
  }

  // The loops of a block stage, for words of any type.

  /** The words of s with the n words at a and the n words at b exchanged. */
  ghost predicate RangesSwapped<T>(s: seq<T>, s': seq<T>, a: nat, b: nat, n: nat)
    requires a + n <= b && b + n <= WORDS && |s| == WORDS
  {
    && |s'| == WORDS
    && forall p: nat {:trigger s'[p]} :: p < WORDS ==>
         s'[p] == if a <= p < a + n then s[b + p - a] else if b <= p < b + n then s[a + p - b] else s[p]
  }

  /** Rows i and i + 64 * n have their final words below column c; all else is as in s0. */
  ghost predicate PairDone<T>(s0: seq<T>, s: seq<T>, n: nat, i: nat, c: nat)
    requires |s0| == WORDS && BlockWords(n)
  {
    && |s| == WORDS
    && forall r: nat, k: nat :: r < SIZE && k < 8 ==>
         WordAt(s, r, k) == if (r == i || r == i + 64 * n) && k < c then WordAfter(s0, r, k, n) else WordAt(s0, r, k)
  }

  /** RangesSwapped on words given by row and column. */
  lemma RangesWord<T>(s: seq<T>, s': seq<T>, i: nat, m: nat, ca: nat, cb: nat, n: nat, r: nat, k: nat)
    requires |s| == WORDS && i < m < SIZE && ca + n <= 8 && cb + n <= 8 && r < SIZE && k < 8
    requires RangesSwapped(s, s', 8 * i + ca, 8 * m + cb, n)
    ensures WordAt(s', r, k) ==
      if r == i && ca <= k < ca + n then WordAt(s, m, cb + k - ca)
      else if r == m && cb <= k < cb + n then WordAt(s, i, ca + k - cb)
      else WordAt(s, r, k)
  {
    var p := 8 * r + k;
    if r == i && ca <= k < ca + n {
      assert s'[p] == s[(8 * m + cb) + p - (8 * i + ca)];
    } else if r == m && cb <= k < cb + n {
      assert s'[p] == s[(8 * i + ca) + p - (8 * m + cb)];
    } else {
      assert !(8 * i + ca <= p < 8 * i + ca + n);
      assert !(8 * m + cb <= p < 8 * m + cb + n);
    }
  }

  lemma PairStart<T>(s: seq<T>, n: nat, i: nat)
    requires |s| == WORDS && BlockWords(n)
    ensures PairDone(s, s, n, i, 0)
  {
  }

  /** One more exchange of ranges puts n more words right in each of the two rows. */
  lemma PairWord<T>(s0: seq<T>, s: seq<T>, s': seq<T>, n: nat, i: nat, c: nat, r: nat, k: nat)
    requires |s0| == |s| == |s'| == WORDS && BlockWords(n) && c + 2 * n <= 8 && c % (2 * n) == 0
    requires i + 64 * n < SIZE && !Digit(i, 64 * n) && PairDone(s0, s, n, i, c)
    requires RangesSwapped(s, s', 8 * i + c + n, 8 * (i + 64 * n) + c, n) && r < SIZE && k < 8
    ensures WordAt(s', r, k) ==
      if (r == i || r == i + 64 * n) && k < c + 2 * n then WordAfter(s0, r, k, n) else WordAt(s0, r, k)
  {
    assert n > 0;
    hide RangesSwapped, WordAt, Digit, BlockWords;
    var m := i + 64 * n;
    BlockPartner(i, 0, n);
    if c <= k < c + 2 * n {
      BlockDigit(k, c, n);
    }
    RangesWord(s, s', i, m, c + n, c, n, r, k);
    assert WordAt(s, r, k) == if (r == i || r == m) && k < c then WordAfter(s0, r, k, n) else WordAt(s0, r, k);
    if r == i && c + n <= k < c + 2 * n {
      assert WordAt(s, m, k - n) == WordAt(s0, m, k - n);
    }
    if r == m && c <= k < c + n {
      assert WordAt(s, i, k + n) == WordAt(s0, i, k + n);
    }
  }

  lemma PairStep<T>(s0: seq<T>, s: seq<T>, s': seq<T>, n: nat, i: nat, c: nat)
    requires |s0| == |s| == WORDS && BlockWords(n) && c + 2 * n <= 8 && c % (2 * n) == 0
    requires i + 64 * n < SIZE && !Digit(i, 64 * n) && PairDone(s0, s, n, i, c)
    requires RangesSwapped(s, s', 8 * i + c + n, 8 * (i + 64 * n) + c, n)
    ensures PairDone(s0, s', n, i, c + 2 * n)
  {
    assert |s'| == WORDS;
    hide RangesSwapped, WordAt, WordAfter, Digit, BlockWords;
    forall r: nat, k: nat | r < SIZE && k < 8
      ensures WordAt(s', r, k) ==
        if (r == i || r == i + 64 * n) && k < c + 2 * n then WordAfter(s0, r, k, n) else WordAt(s0, r, k)
    {
      PairWord(s0, s, s', n, i, c, r, k);
    }
  }

  lemma BlockDigit(k: nat, c: nat, n: nat)
    requires BlockWords(n) && c % (2 * n) == 0 && c <= k < c + 2 * n
    ensures Digit(k, n) <==> k >= c + n
  {
    if
    case n == 1 =>
    case n == 2 =>
    case n == 4 =>
  }

  /** The rows finished after i full rounds and, in round i, the pairs below base. */
  predicate RowDone(r: nat, n: nat, i: nat, base: nat)
    requires n > 0
  {
    r % (64 * n) < i || (r % (64 * n) == i && r < base)
  }

  ghost predicate RowsDone<T>(s0: seq<T>, s: seq<T>, n: nat, i: nat, base: nat)
    requires |s0| == WORDS && BlockWords(n)
  {
    && |s| == WORDS
    && forall r: nat, k: nat :: r < SIZE && k < 8 ==>
         WordAt(s, r, k) == if RowDone(r, n, i, base) then WordAfter(s0, r, k, n) else WordAt(s0, r, k)
  }

  /** The two rows with remainder i in a block of 2 * w rows. */
  lemma PairRows(r: nat, base: nat, i: nat, w: nat)
    requires w > 0 && base % (2 * w) == 0 && i < w
    ensures base <= r < base + 2 * w && r % w == i <==> r == base + i || r == base + i + w
    ensures !Digit(base + i, w)
  {
    var q := base / (2 * w);
    assert base == q * (2 * w) == (2 * q) * w;
    DivModUnique(base + i, w, 2 * q, i);
    assert base + i + w == (2 * q + 1) * w + i;
    DivModUnique(base + i + w, w, 2 * q + 1, i);
    if base <= r < base + w {
      DivModUnique(r, w, 2 * q, r - base);
    } else if base + w <= r < base + 2 * w {
      DivModUnique(r, w, 2 * q + 1, r - base - w);
    }
  }

  lemma RowsStart<T>(s: seq<T>, n: nat)
    requires |s| == WORDS && BlockWords(n)
    ensures RowsDone(s, s, n, 0, 0)
  {
  }

  lemma RowDoneStep(r: nat, n: nat, i: nat, base: nat)
    requires BlockWords(n) && i < 64 * n && base % (128 * n) == 0
    ensures var a, b := base + i, base + i + 64 * n;
      && (RowDone(r, n, i, base + 128 * n) <==> RowDone(r, n, i, base) || r == a || r == b)
      && !RowDone(a, n, i, base) && !RowDone(b, n, i, base) && !Digit(a, 64 * n)
  {
    var w := 64 * n;
    PairRows(r, base, i, w);
    PairRows(base + i, base, i, w);
    PairRows(base + i + w, base, i, w);
  }

  /** The final words of a pair of rows depend on those two rows alone. */
  lemma WordAfterLocal<T>(s: seq<T>, s': seq<T>, r: nat, k: nat, n: nat, a: nat, b: nat)
    requires |s| == |s'| == WORDS && BlockWords(n) && k < 8 && b == a + 64 * n < SIZE && !Digit(a, 64 * n)
    requires r == a || r == b
    requires forall j: nat :: j < 8 ==> WordAt(s, a, j) == WordAt(s', a, j)
    requires forall j: nat :: j < 8 ==> WordAt(s, b, j) == WordAt(s', b, j)
    ensures WordAfter(s, r, k, n) == WordAfter(s', r, k, n)
  {
    BlockPartner(a, k, n);
    hide Digit, BlockWords, WordAt;
  }

  lemma RowsStep<T>(s0: seq<T>, s: seq<T>, s': seq<T>, n: nat, i: nat, base: nat)
    requires |s0| == |s| == WORDS && BlockWords(n) && i < 64 * n
    requires base % (128 * n) == 0 && base + 128 * n <= SIZE
    requires RowsDone(s0, s, n, i, base) && PairDone(s, s', n, base + i, 8)
    ensures RowsDone(s0, s', n, i, base + 128 * n)
  {
    var a, b := base + i, base + i + 64 * n;
    RowDoneStep(0, n, i, base);
    forall r: nat, k: nat | r < SIZE && k < 8
      ensures WordAt(s', r, k) ==
        if RowDone(r, n, i, base + 128 * n) then WordAfter(s0, r, k, n) else WordAt(s0, r, k)
    {
      RowDoneStep(r, n, i, base);
      hide WordAt, WordAfter, Digit, RowDone;
      assert WordAt(s, r, k) == if RowDone(r, n, i, base) then WordAfter(s0, r, k, n) else WordAt(s0, r, k);
      if r == a || r == b {
        forall j: nat | j < 8
          ensures WordAt(s, a, j) == WordAt(s0, a, j)
        {
        }
        forall j: nat | j < 8
          ensures WordAt(s, b, j) == WordAt(s0, b, j)
        {
        }
        WordAfterLocal(s, s0, r, k, n, a, b);
      }
    }
  }

  lemma RowsNext<T>(s0: seq<T>, s: seq<T>, n: nat, i: nat)
    requires |s0| == WORDS && BlockWords(n) && RowsDone(s0, s, n, i, SIZE)
    ensures RowsDone(s0, s, n, i + 1, 0)
  {
    hide WordAfter, WordAt;
    forall r: nat | r < SIZE
      ensures RowDone(r, n, i, SIZE) == RowDone(r, n, i + 1, 0)
    {
    }
  }

  lemma RowsEnd<T>(s0: seq<T>, s: seq<T>, n: nat)
    requires |s0| == WORDS && BlockWords(n) && RowsDone(s0, s, n, 64 * n, 0)
    ensures BlocksExchanged(s0, s, n)
  {
    hide WordAfter, WordAt;
    forall r: nat | r < SIZE
      ensures RowDone(r, n, 64 * n, 0)
    {
    }
  }

  // ----- all tiles

  ghost predicate TileTransposed(t: seq<word>, t': seq<word>)
    requires |t| == |t'| == 64
  {
    forall r: nat, c: nat :: r < 64 && c < 64 ==> TileBit(t', r, c) == TileBit(t, c, r)
  }

  /** The first m tiles, row by row, are transposed and the others are as they were. */
  ghost predicate TilesDone(s: seq<word>, s': seq<word>, m: nat)
    requires |s| == |s'| == WORDS
  {
    forall b: nat, c: nat :: b < 8 && c < 8 ==>
      if 8 * b + c < m then TileTransposed(Tile(s, b, c), Tile(s', b, c)) else Tile(s', b, c) == Tile(s, b, c)
  }

  lemma OtherTileSame<T>(s: seq<T>, s': seq<T>, vblock: nat, col: nat, b: nat, c: nat)
    requires |s| == |s'| == WORDS && vblock < 8 && col < 8 && b < 8 && c < 8
    requires SameOutside(s, s', vblock, col) && (b != vblock || c != col)
    ensures Tile(s', b, c) == Tile(s, b, c)
  {
    forall r: nat | r < 64
      ensures s'[TileWord(b, c, r)] == s[TileWord(b, c, r)]
    {
      TileWordInTile(b, c, r);
    }
  }

  lemma TilesStart(s: seq<word>)
    requires |s| == WORDS
    ensures TilesDone(s, s, 0)
  {
  }

  lemma TilesStep(s0: seq<word>, s: seq<word>, s': seq<word>, vblock: nat, col: nat)
    requires |s0| == |s| == |s'| == WORDS && vblock < 8 && col < 8
    requires TilesDone(s0, s, 8 * vblock + col) && SameOutside(s, s', vblock, col)
    requires TileTransposed(Tile(s, vblock, col), Tile(s', vblock, col))
    ensures TilesDone(s0, s', 8 * vblock + col + 1)
  {
    forall b: nat, c: nat | b < 8 && c < 8
      ensures if 8 * b + c < 8 * vblock + col + 1 then TileTransposed(Tile(s0, b, c), Tile(s', b, c))
              else Tile(s', b, c) == Tile(s0, b, c)
    {
      hide TileTransposed, Tile, SameOutside;
      if b != vblock || c != col {
        OtherTileSame(s, s', vblock, col, b, c);
      }
    }
  }

  lemma AtIsTileBit(s: seq<word>, i: nat, j: nat)
    requires |s| == WORDS && i < SIZE && j < SIZE
    ensures At(s, i, j) == TileBit(Tile(s, i / 64, j / 64), i % 64, j % 64)
  {
    assert TileWord(i / 64, j / 64, i % 64) == 8 * i + j / 64;
  }

  /** Block stages bring every tile to its place and the tiles are then transposed. */
  lemma TilesEnd(s0: seq<word>, s: seq<word>, s': seq<word>)
    requires |s0| == |s| == |s'| == WORDS && Mixed(s0, s, 64) && TilesDone(s, s', 64)
    ensures Transposed(s0, s')
  {
    forall i: nat, j: nat | i < SIZE && j < SIZE
      ensures At(s', i, j) == At(s0, j, i)
    {
      hide At, Tile, TileBit;
      var u, v := 64 * (i / 64) + j % 64, 64 * (j / 64) + i % 64;
      AtIsTileBit(s', i, j);
      AtIsTileBit(s, u, v);
      assert u / 64 == i / 64 && u % 64 == j % 64 && v / 64 == j / 64 && v % 64 == i % 64;
      assert TileTransposed(Tile(s, i / 64, j / 64), Tile(s', i / 64, j / 64));
      assert At(s', i, j) == At(s, u, v);
      assert Mix(u, v, 64) == j && Mix(v, u, 64) == i;
    }
  }

  /** Transposing twice gives the words back. */
  lemma TransposedTwice(s: seq<word>, s': seq<word>, s'': seq<word>)
    requires |s| == |s'| == |s''| == WORDS && Transposed(s, s') && Transposed(s', s'')
    ensures s'' == s
  {
    hide WordBit;
    forall k: nat | k < WORDS
      ensures s''[k] == s[k]
    {
      var i, q := k / 8, k % 8;
      forall c: nat | c < 64
        ensures WordBit(s''[k], c) == WordBit(s[k], c)
      {
        var j := 64 * q + c;
        assert j / 64 == q && j % 64 == c && k == 8 * i + q;
        assert At(s'', i, j) == At(s', j, i) == At(s, i, j);
      }
      WordFromBits(s''[k], s[k]);
    }
  }

  class BitVect {
    const words: array<word>

    ghost predicate Valid()
      reads this
    {
      words.Length == WORDS
    }

    constructor ()
      ensures Valid() && fresh(words)
    {
      words := new word[WORDS](_ => 0);
    }

    /** Three copies through tmp: the n words at a and the n words at b change places. */
    method CopySwap(tmp: array<word>, a: nat, b: nat, n: nat)
      requires Valid() && a + n <= b && b + n <= WORDS && tmp.Length == 4 && n <= 4 && tmp != words
      modifies words, tmp
      ensures RangesSwapped(old(words[..]), words[..], a, b, n)
    {
      forall k | 0 <= k < n {
        tmp[k] := words[a + k];
      }
      forall k | 0 <= k < n {
        words[a + k] := words[b + k];
      }
      forall k | 0 <= k < n {
        words[b + k] := tmp[k];
      }
    }

    /** One turn of a block stage for one pair of rows. */
    method ExchangeRowPair(tmp: array<word>, i: nat, n: nat)
      requires Valid() && BlockWords(n) && i + 64 * n < SIZE && !Digit(i, 64 * n) && tmp.Length == 4 && tmp != words
      modifies words, tmp
      ensures PairDone(old(words[..]), words[..], n, i, 8)
    {
      hide Digit, PairDone, RangesSwapped;
      ghost var s0 := words[..];
      PairStart(s0, n, i);
      var jmp := 8 * i;
      var c := 0;
      while c < 8
        invariant c % (2 * n) == 0 && c <= 8
        invariant PairDone(s0, words[..], n, i, c)
      {
        ghost var s := words[..];
        CopySwap(tmp, jmp + c + n, 64 * n * 8 + jmp + c, n);
        PairStep(s0, s, words[..], n, i, c);
        c := c + 2 * n;
      }
    }

    /** A stage of transpose that exchanges blocks of n words and 64 * n rows, in the order of
        its loop. */
    method ExchangeBlocks(tmp: array<word>, n: nat)
      requires Valid() && BlockWords(n) && tmp.Length == 4 && tmp != words
      modifies words, tmp
      ensures BlocksExchanged(old(words[..]), words[..], n)
    {
      hide PairDone, RowsDone, Digit;
      ghost var s0 := words[..];
      RowsStart(s0, n);
      for i := 0 to 64 * n
        invariant RowsDone(s0, words[..], n, i, 0)
      {
        var base := 0;
        while base < SIZE
          invariant base % (128 * n) == 0 && base <= SIZE
          invariant RowsDone(s0, words[..], n, i, base)
        {
          PairRows(0, base, i, 64 * n);
          ghost var s := words[..];
          ExchangeRowPair(tmp, base + i, n);
          RowsStep(s0, s, words[..], n, i, base);
          base := base + 128 * n;
        }
        RowsNext(s0, words[..], n, i);
      }
      RowsEnd(s0, words[..], n);
    }

    /** swap: exchanges the masked columns of word a with those of word b, `width` further right. */
    method Swap(a: nat, b: nat, mask: word, width: nat)
      requires Valid() && a < WORDS && b < WORDS && a != b && Width(width)
      modifies words
      ensures var (x, y) := Swapped(old(words[a]), old(words[b]), mask, width);
              words[..] == old(words[..])[a := x][b := y]
      ensures mask == MaskOf(width) ==>
                forall c: nat :: c < 64 ==> ColumnSwapped(old(words[a]), old(words[b]), words[a], words[b], width, c)
    {
      hide Shl, ShrW, XorW, AndW, Width, MaskOf, ColumnSwapped;
      var t := AndW(XorW(words[a], Shl(words[b], width)), mask);
      words[a] := XorW(words[a], t);
      words[b] := XorW(words[b], ShrW(t, width));
      if mask == MaskOf(width) {
        forall c: nat | c < 64
          ensures ColumnSwapped(old(words[a]), old(words[b]), words[a], words[b], width, c)
        {
          SwapBits(old(words[a]), old(words[b]), width, c);
        }
      }
    }

    /** One call of swap in transpose64: rows r and r + width of a tile. */
    method SwapRows(vblock: nat, col: nat, r: nat, mask: word, width: nat, ghost s0: seq<word>)
      requires Valid() && vblock < 8 && col < 8 && r < 64 && Width(width) && mask == MaskOf(width) && !Digit(r, width)
      requires |s0| == WORDS
      requires Exchanged(s0, words[..], TileAfter(Tile(s0, vblock, col), width), vblock, col, width, r)
      modifies words
      ensures Exchanged(s0, words[..], TileAfter(Tile(s0, vblock, col), width), vblock, col, width, r + 1)
    {
      hide MaskOf, Digit, Swapped, Exchanged, Tile, TileAfter;
      DigitRange(r, width);
      var jmp := vblock * (64 * 8) + col;
      ghost var s, goal := words[..], TileAfter(Tile(s0, vblock, col), width);
      ExchangeBefore(s0, s, goal, vblock, col, width, r);
      TileAfterRows(Tile(s0, vblock, col), width, r);
      Swap(jmp + 8 * r, jmp + 8 * (r + width), mask, width);
      ExchangeStep(s0, s, goal, vblock, col, width, r);
    }

    /** The calls of swap that transpose64 makes for one width, in its order. */
    method Exchange(vblock: nat, col: nat, mask: word, width: nat)
      requires Valid() && vblock < 8 && col < 8 && Width(width) && mask == MaskOf(width)
      modifies words
      ensures Tile(words[..], vblock, col) == TileAfter(old(Tile(words[..], vblock, col)), width)
      ensures SameOutside(old(words[..]), words[..], vblock, col)
    {
      assert width > 0;
      hide MaskOf, Digit, Swapped, Exchanged, SameOutside, Tile, TileAfter, Width;
      ghost var s0 := words[..];
      ghost var goal := TileAfter(Tile(s0, vblock, col), width);
      ExchangeStart(s0, goal, vblock, col, width);
      var base := 0;
      while base < 64
        invariant base % (2 * width) == 0
        invariant Exchanged(s0, words[..], goal, vblock, col, width, base)
      {
        GroupRange(base, width);
        for r := base to base + width
          invariant Exchanged(s0, words[..], goal, vblock, col, width, r)
        {
          PairRows(r, base, r - base, width);
          SwapRows(vblock, col, r, mask, width, s0);
        }
        ExchangeSkip(s0, words[..], goal, vblock, col, width, base);
        base := base + 2 * width;
      }
      ExchangeEnd(s0, words[..], goal, vblock, col, width, base);
    }

    /** transpose64: the six exchanges transpose one tile and leave the rest alone. */
    method Transpose64(vblock: nat, col: nat)
      requires Valid() && vblock < 8 && col < 8
      modifies words
      ensures TileTransposed(old(Tile(words[..], vblock, col)), Tile(words[..], vblock, col))
      ensures SameOutside(old(words[..]), words[..], vblock, col)
    {
      hide TileAfter, TileMixed, SameOutside, TileBit, Tile, Digit;
      ghost var s0, s := words[..], words[..];
      TileStart(Tile(s, vblock, col));
      SameOutsideItself(s, vblock, col);
      Exchange(vblock, col, 0xFFFFFFFF00000000, 32);
      Stage(s0, s, words[..], vblock, col, 32);
      s := words[..];
      Exchange(vblock, col, 0xFFFF0000FFFF0000, 16);
      Stage(s0, s, words[..], vblock, col, 16);
      s := words[..];
      Exchange(vblock, col, 0xFF00FF00FF00FF00, 8);
      Stage(s0, s, words[..], vblock, col, 8);
      s := words[..];
      Exchange(vblock, col, 0xF0F0F0F0F0F0F0F0, 4);
      Stage(s0, s, words[..], vblock, col, 4);
      s := words[..];
      Exchange(vblock, col, 0xcccccccccccccccc, 2);
      Stage(s0, s, words[..], vblock, col, 2);
      s := words[..];
      Exchange(vblock, col, 0xaaaaaaaaaaaaaaaa, 1);
      Stage(s0, s, words[..], vblock, col, 1);
      TileEnd(Tile(s0, vblock, col), Tile(words[..], vblock, col));
    }

    /** transpose: bit (i, j) becomes bit (j, i). */
    method Transpose()
      requires Valid()
      modifies words
      ensures Transposed(old(words[..]), words[..])
    {
      hide Mixed, BlocksExchanged, Tile, TileTransposed, TilesDone, Transposed, SameOutside, Digit;
      ghost var s0 := words[..];
      var tmp := new word[4](_ => 0);
      MixedStart(s0);
      ghost var s := words[..];
      ExchangeBlocks(tmp, 4);
      MixedStep(s0, s, words[..], 4);
      s := words[..];
      ExchangeBlocks(tmp, 2);
      MixedStep(s0, s, words[..], 2);
      s := words[..];
      ExchangeBlocks(tmp, 1);
      MixedStep(s0, s, words[..], 1);

      ghost var s3 := words[..];
      TilesStart(s3);
      for blk := 0 to 8
        invariant TilesDone(s3, words[..], 8 * blk)
      {
        for col := 0 to 8
          invariant TilesDone(s3, words[..], 8 * blk + col)
        {
          s := words[..];
          Transpose64(blk, col);
          TilesStep(s3, s, words[..], blk, col);
        }
      }
      TilesEnd(s0, s3, words[..]);
    }
  }
}
