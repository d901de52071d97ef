/** encoding/binary's little-endian layout of a 64-bit word in eight bytes. */
module LittleEndian {
  import opened Words

  function Join(b: byte, x: word): word {
    b as word | (x << 8)
  }

  function Rest(w: word): word {
    w >> 8
  }

  /** LittleEndian.Uint64, for up to eight bytes. */
  function Load(b: seq<byte>): word
    requires |b| <= 8
  {
    if b == [] then 0 else Join(b[0], Load(b[1..]))
  }

  function LowByte(w: word): byte {
    (w & 0xFF) as byte
  }

  /** LittleEndian.PutUint64, for the n lowest bytes. */
  function Store(w: word, n: nat): (b: seq<byte>)
    ensures |b| == n
    decreases n
  {
    if n == 0 then [] else [LowByte(w)] + Store(Rest(w), n - 1)
  }

  // ----- bits of one byte among eight

  lemma LowOne(c: nat)
    requires c < 8
    ensures One(c) == One8(c) as word
  {
    if
    case c == 0 =>
    case c == 1 =>
    case c == 2 =>
    case c == 3 =>
    case c == 4 =>
    case c == 5 =>
    case c == 6 =>
    case c == 7 =>
  }

  function Left8(m: word): word {
    m << 8
  }

  lemma JoinLowMask(b: byte, x: word, m: byte)
    ensures On(Join(b, x), m as word) <==> OnB(b, m)
  {
  }

  lemma JoinHighMask(b: byte, x: word, m: word)
    requires OneHot(m) && Left8(m) != 0
    ensures On(Join(b, x), Left8(m)) <==> On(x, m)
  {
  }

  lemma LowByteMask(w: word, m: byte)
    ensures OnB(LowByte(w), m) <==> On(w, m as word)
  {
  }

  lemma RestMask(w: word, m: word)
    requires OneHot(m) && Left8(m) != 0
    ensures On(Rest(w), m) <==> On(w, Left8(m))
  {
  }

  lemma HighOne(c: nat)
    requires c < 56
    ensures One(c + 8) == Left8(One(c)) && Left8(One(c)) != 0 && OneHot(One(c))
  {
    OneShift(c, 8);
    OneIsHot(c + 8);
    OneIsHot(c);
  }

  lemma JoinBit(b: byte, x: word, c: nat)
    requires c < 64
    ensures c < 8 ==> WordBit(Join(b, x), c) == ByteBit(b, c)
    ensures c >= 8 ==> WordBit(Join(b, x), c) == WordBit(x, c - 8)
  {
    hide On, OnB, One, One8, Join, Left8, OneHot;
    if c < 8 {
      LowOne(c);
      JoinLowMask(b, x, One8(c));
    } else {
      HighOne(c - 8);
      JoinHighMask(b, x, One(c - 8));
    }
  }

  lemma SplitBit(w: word, c: nat)
    requires c < 64
    ensures c < 8 ==> ByteBit(LowByte(w), c) == WordBit(w, c)
    ensures c >= 8 ==> WordBit(Rest(w), c - 8) == WordBit(w, c)
  {
    hide On, OnB, One, One8, LowByte, Rest, Left8, OneHot;
    if c < 8 {
      LowOne(c);
      LowByteMask(w, One8(c));
    } else {
      HighOne(c - 8);
      RestMask(w, One(c - 8));
    }
  }

  // ----- bits of a word and of its bytes

  lemma ByteIndex(c: nat)
    requires c >= 8
    ensures (c - 8) / 8 == c / 8 - 1 && (c - 8) % 8 == c % 8
  {
  }

  lemma {:induction false} LoadBit(b: seq<byte>, c: nat)
    requires |b| <= 8 && c < 8 * |b|
    ensures WordBit(Load(b), c) == IsBitSet(b, c)
  {
    hide WordBit, ByteBit, Join;
    JoinBit(b[0], Load(b[1..]), c);
    if c >= 8 {
      LoadBit(b[1..], c - 8);
      ByteIndex(c);
    }
  }

  lemma {:induction false} StoreBit(w: word, n: nat, c: nat)
    requires n <= 8 && c < 8 * n
    ensures IsBitSet(Store(w, n), c) == WordBit(w, c)
    decreases n
  {
    hide WordBit, ByteBit, Rest, LowByte;
    SplitBit(w, c);
    if c >= 8 {
      StoreBit(Rest(w), n - 1, c - 8);
      ByteIndex(c);
    }
  }

  // ----- words inside a row of bytes

  /** Uint64(row[k * 8 : (k + 1) * 8]) */
  function LoadAt(row: seq<byte>, k: nat): word
    requires 8 * k + 8 <= |row|
  {
    Load(row[8 * k..8 * k + 8])
  }

  /** PutUint64(row[k * 8 : (k + 1) * 8], w) */
  function StoreAt(row: seq<byte>, k: nat, w: word): (r: seq<byte>)
    requires 8 * k + 8 <= |row|
    ensures |r| == |row|
  {
    row[..8 * k] + Store(w, 8) + row[8 * k + 8..]
  }

  lemma LoadAtBit(row: seq<byte>, k: nat, c: nat)
    requires 8 * k + 8 <= |row| && c < 64
    ensures WordBit(LoadAt(row, k), c) == IsBitSet(row, 64 * k + c)
  {
    hide WordBit, ByteBit;
    LoadBit(row[8 * k..8 * k + 8], c);
    assert (64 * k + c) / 8 == 8 * k + c / 8 && (64 * k + c) % 8 == c % 8;
  }

  lemma StoreAtBit(row: seq<byte>, k: nat, w: word, i: nat)
    requires 8 * k + 8 <= |row| && i < 8 * |row|
    ensures IsBitSet(StoreAt(row, k, w), i) == if i / 64 == k then WordBit(w, i % 64) else IsBitSet(row, i)
  {
    hide WordBit, ByteBit, Store;
    if i / 64 == k {
      StoreBit(w, 8, i % 64);
      assert i == 64 * k + i % 64;
      assert i / 8 == 8 * k + (i % 64) / 8 && i % 8 == (i % 64) % 8;
    }
  }

  // ----- bytes and rows are determined by their bits

  lemma ByteFromBits(a: byte, b: byte)
    requires forall c: nat :: c < 8 ==> ByteBit(a, c) == ByteBit(b, c)
    ensures a == b
  {
    assert One8(0) == 0x01 && One8(1) == 0x02 && One8(2) == 0x04 && One8(3) == 0x08;
    assert One8(4) == 0x10 && One8(5) == 0x20 && One8(6) == 0x40 && One8(7) == 0x80;
    assert ByteBit(a, 0) == ByteBit(b, 0) && ByteBit(a, 1) == ByteBit(b, 1);
    assert ByteBit(a, 2) == ByteBit(b, 2) && ByteBit(a, 3) == ByteBit(b, 3);
    assert ByteBit(a, 4) == ByteBit(b, 4) && ByteBit(a, 5) == ByteBit(b, 5);
    assert ByteBit(a, 6) == ByteBit(b, 6) && ByteBit(a, 7) == ByteBit(b, 7);
  }

  /** Rows of bytes with the same bits are the same. */
  lemma RowFromBits(a: seq<byte>, b: seq<byte>)
    requires |a| == |b| && forall i: nat :: i < 8 * |a| ==> IsBitSet(a, i) == IsBitSet(b, i)
    ensures a == b
  {
    hide ByteBit;
    forall k: nat | k < |a|
      ensures a[k] == b[k]
    {
      forall c: nat | c < 8
        ensures ByteBit(a[k], c) == ByteBit(b[k], c)
      {
        assert IsBitSet(a, 8 * k + c) == IsBitSet(b, 8 * k + c);
        assert (8 * k + c) / 8 == k && (8 * k + c) % 8 == c;
      }
      ByteFromBits(a[k], b[k]);
    }
  }

  // ----- words are determined by their bits

  lemma JoinSplit(w: word)
    ensures Join(LowByte(w), Rest(w)) == w
  {
  }

  /** Nothing of the word is left above its n lowest bytes. */
  ghost predicate FitsBytes(w: word, n: nat) {
    if n == 0 then w == 0 else FitsBytes(Rest(w), n - 1)
  }

  lemma FitsEight(w: word)
    ensures FitsBytes(w, 8)
  {
    var w4 := Rest(Rest(Rest(Rest(w))));
    assert Rest(Rest(Rest(Rest(w4)))) == 0;
    assert FitsBytes(Rest(Rest(w4)), 2);
    assert FitsBytes(w4, 4);
    assert FitsBytes(Rest(Rest(w)), 6);
  }

  /** Reading back what was stored. */
  lemma {:induction false} LoadStore(w: word, n: nat)
    requires n <= 8 && FitsBytes(w, n)
    ensures Load(Store(w, n)) == w
    decreases n
  {
    hide Join, Rest, LowByte;
    if n > 0 {
      LoadStore(Rest(w), n - 1);
      JoinSplit(w);
      assert Store(w, n)[1..] == Store(Rest(w), n - 1);
    }
  }

  /** Words with the same bits are the same. */
  lemma WordFromBits(a: word, b: word)
    requires forall c: nat :: c < 64 ==> WordBit(a, c) == WordBit(b, c)
    ensures a == b
  {
    hide WordBit, IsBitSet, FitsBytes, Load, Store;
    forall i: nat | i < 64
      ensures IsBitSet(Store(a, 8), i) == IsBitSet(Store(b, 8), i)
    {
      StoreBit(a, 8, i);
      StoreBit(b, 8, i);
    }
    RowFromBits(Store(a, 8), Store(b, 8));
    FitsEight(a);
    FitsEight(b);
    LoadStore(a, 8);
    LoadStore(b, 8);
  }
}
