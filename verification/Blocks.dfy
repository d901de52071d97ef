/** Matrices of bits as rows of bytes, cut into blocks of 512 by 512 bits, and the copies between
    a block and a BitVect (bitvect_generic.go). A tall matrix has 512 columns and its blocks lie
    below each other; a wide matrix has 512 rows and its blocks lie beside each other. */
module Blocks {
  import opened Words
  import opened LittleEndian
  import opened BitMatrix

  type Matrix = seq<seq<byte>>

  datatype Layout = Tall | Wide {
    function Other(): Layout {
      if Tall? then Wide else Tall
    }

    /** The number of rows of a matrix of n blocks. */
    function Rows(n: nat): nat {
      if Tall? then SIZE * n else SIZE
    }

    /** The number of bytes in each of its rows. */
    function Width(n: nat): nat {
      if Tall? then 64 else 64 * n
    }

    /** The row in which row i of block idx lies. */
    function Row(idx: nat, i: nat): nat {
      if Tall? then SIZE * idx + i else i
    }

    /** The first column of block idx, counted in words. */
    function WordColumn(idx: nat): nat {
      if Tall? then 0 else 8 * idx
    }
  }

  ghost predicate Shape(layout: Layout, m: Matrix, n: nat) {
    |m| == layout.Rows(n) && forall r: nat :: r < |m| ==> |m[r]| == layout.Width(n)
  }

  /** Bit (i, j) of block idx. */
  predicate BlockBit(layout: Layout, m: Matrix, n: nat, idx: nat, i: nat, j: nat)
    requires Shape(layout, m, n) && idx < n && i < SIZE && j < SIZE
  {
    BlockInside(layout, n, idx, i, j);
    IsBitSet(m[layout.Row(idx, i)], 64 * layout.WordColumn(idx) + j)
  }

  lemma BlockInside(layout: Layout, n: nat, idx: nat, i: nat, j: nat)
    requires idx < n && i < SIZE && j < SIZE
    ensures layout.Row(idx, i) < layout.Rows(n) && 64 * layout.WordColumn(idx) + j < 8 * layout.Width(n)
  {
  }

  /** The words hold block idx. */
  ghost predicate HoldsBlock(words: seq<word>, layout: Layout, m: Matrix, n: nat, idx: nat)
    requires |words| == WORDS && Shape(layout, m, n) && idx < n
  {
    forall i: nat, j: nat :: i < SIZE && j < SIZE ==> At(words, i, j) == BlockBit(layout, m, n, idx, i, j)
  }

  /** The words hold the transpose of block idx. */
  ghost predicate HoldsTransposedBlock(words: seq<word>, layout: Layout, m: Matrix, n: nat, idx: nat)
    requires |words| == WORDS && Shape(layout, m, n) && idx < n
  {
    forall i: nat, j: nat :: i < SIZE && j < SIZE ==> At(words, i, j) == BlockBit(layout, m, n, idx, j, i)
  }

  /** The word of block idx that goes to words[8 * i + k]. */
  function BlockWord(layout: Layout, m: Matrix, n: nat, idx: nat, i: nat, k: nat): word
    requires Shape(layout, m, n) && idx < n && i < SIZE && k < 8
  {
    BlockInside(layout, n, idx, i, 64 * k + 63);
    LoadAt(m[layout.Row(idx, i)], layout.WordColumn(idx) + k)
  }

  lemma BlockWordBit(layout: Layout, m: Matrix, n: nat, idx: nat, i: nat, j: nat)
    requires Shape(layout, m, n) && idx < n && i < SIZE && j < SIZE
    ensures WordBit(BlockWord(layout, m, n, idx, i, j / 64), j % 64) == BlockBit(layout, m, n, idx, i, j)
  {
    hide WordBit, IsBitSet, LoadAt;
    BlockInside(layout, n, idx, i, 64 * (j / 64) + 63);
    LoadAtBit(m[layout.Row(idx, i)], layout.WordColumn(idx) + j / 64, j % 64);
    assert 64 * (layout.WordColumn(idx) + j / 64) + j % 64 == 64 * layout.WordColumn(idx) + j by {
      assert 64 * (j / 64) + j % 64 == j;
    }
  }

  /** All words of a block, row after row. */
  ghost function WordsOfBlock(layout: Layout, m: Matrix, n: nat, idx: nat): (s: seq<word>)
    requires Shape(layout, m, n) && idx < n
    ensures |s| == WORDS
  {
    seq(WORDS, p requires 0 <= p < WORDS => BlockWord(layout, m, n, idx, p / 8, p % 8))
  }

  lemma WordIndex(i: nat, j: nat)
    requires j < SIZE
    ensures (8 * i + j / 64) / 8 == i && (8 * i + j / 64) % 8 == j / 64
  {
  }

  lemma WordsOfBlockHold(layout: Layout, m: Matrix, n: nat, idx: nat)
    requires Shape(layout, m, n) && idx < n
    ensures HoldsBlock(WordsOfBlock(layout, m, n, idx), layout, m, n, idx)
  {
    forall i: nat, j: nat | i < SIZE && j < SIZE
      ensures At(WordsOfBlock(layout, m, n, idx), i, j) == BlockBit(layout, m, n, idx, i, j)
    {
      hide BlockWord, BlockBit, WordBit, Shape;
      BlockWordBit(layout, m, n, idx, i, j);
      WordIndex(i, j);
    }
  }

  lemma ExtendPrefix<T>(s: seq<T>, s': seq<T>, goal: seq<T>, p: nat)
    requires |s| == |goal| && p < |s| && s[..p] == goal[..p] && s' == s[p := goal[p]]
    ensures s'[..p + 1] == goal[..p + 1]
  {
  }

  /** The inner body: one word is read. */
  method UnravelWord(b: BitVect, layout: Layout, m: Matrix, n: nat, idx: nat, i: nat, j: nat)
    requires b.Valid() && Shape(layout, m, n) && idx < n && i < SIZE && j < 8
    requires b.words[..8 * i + j] == WordsOfBlock(layout, m, n, idx)[..8 * i + j]
    modifies b.words
    ensures b.words[..8 * i + j + 1] == WordsOfBlock(layout, m, n, idx)[..8 * i + j + 1]
  {
    hide LoadAt, Shape, Layout.Row, Layout.WordColumn, Layout.Width, Layout.Rows;
    BlockInside(layout, n, idx, i, 64 * j + 63);
    WordOfBlockAt(layout, m, n, idx, i, j);
    hide WordsOfBlock;
    ghost var goal, s, p := WordsOfBlock(layout, m, n, idx), b.words[..], 8 * i + j;
    b.words[i * 8 + j] := LoadAt(m[layout.Row(idx, i)], layout.WordColumn(idx) + j);
    assert s[..p] == goal[..p];
    assert b.words[..] == s[p := goal[p]];
    ExtendPrefix(s, b.words[..], goal, p);
    assert b.words[..][..p + 1] == b.words[..p + 1];
  }

  lemma WordOfBlockAt(layout: Layout, m: Matrix, n: nat, idx: nat, i: nat, j: nat)
    requires Shape(layout, m, n) && idx < n && i < SIZE && j < 8
    ensures layout.Row(idx, i) < |m| && 8 * (layout.WordColumn(idx) + j) + 8 <= |m[layout.Row(idx, i)]|
    ensures WordsOfBlock(layout, m, n, idx)[8 * i + j] == LoadAt(m[layout.Row(idx, i)], layout.WordColumn(idx) + j)
  {
    BlockInside(layout, n, idx, i, 64 * j + 63);
    assert (8 * i + j) / 8 == i && (8 * i + j) % 8 == j;
  }

  /** unravelTall and unravelWide: the words are read off block idx. */
  method Unravel(b: BitVect, layout: Layout, m: Matrix, n: nat, idx: nat)
    requires b.Valid() && Shape(layout, m, n) && idx < n
    modifies b.words
    ensures HoldsBlock(b.words[..], layout, m, n, idx)
  {
    hide WordsOfBlock, Shape;
    ghost var goal := WordsOfBlock(layout, m, n, idx);
    for i := 0 to SIZE
      invariant b.words[..8 * i] == goal[..8 * i]
    {
      for j := 0 to 8
        invariant b.words[..8 * i + j] == goal[..8 * i + j]
      {
        UnravelWord(b, layout, m, n, idx, i, j);
      }
    }
    assert b.words[..] == b.words[..WORDS] == goal[..WORDS] == goal;
    WordsOfBlockHold(layout, m, n, idx);
  }

  // ----- writing one word of a block back

  /** The matrix after PutUint64 of w at words[q] of block idx. */
  function PutWord(layout: Layout, t: Matrix, n: nat, idx: nat, q: nat, w: word): (t': Matrix)
    requires Shape(layout, t, n) && idx < n && q < WORDS
    ensures Shape(layout, t', n)
  {
    BlockInside(layout, n, idx, q / 8, 64 * (q % 8) + 63);
    var r := layout.Row(idx, q / 8);
    t[r := StoreAt(t[r], layout.WordColumn(idx) + q % 8, w)]
  }

  /** Words of blocks lie in different places. */
  lemma WordPlace(layout: Layout, idx: nat, q: nat, idx': nat, i: nat, k: nat)
    requires q < WORDS && i < SIZE && k < 8
    ensures layout.Row(idx, q / 8) == layout.Row(idx', i) &&
            layout.WordColumn(idx) + q % 8 == layout.WordColumn(idx') + k
            <==> idx' == idx && q == 8 * i + k
  {
    assert q == 8 * (q / 8) + q % 8;
    if layout.Tall? {
      assert SIZE * idx + q / 8 == SIZE * idx' + i ==> idx == idx';
    } else {
      assert 8 * idx + q % 8 == 8 * idx' + k ==> idx == idx';
    }
  }

  lemma StoredBit(row: seq<byte>, k: nat, w: word, a: nat, j: nat)
    requires 8 * k + 8 <= |row| && 64 * a + j < 8 * |row|
    ensures IsBitSet(StoreAt(row, k, w), 64 * a + j) ==
      if a + j / 64 == k then WordBit(w, j % 64) else IsBitSet(row, 64 * a + j)
  {
    hide WordBit, IsBitSet, StoreAt;
    StoreAtBit(row, k, w, 64 * a + j);
    assert (64 * a + j) / 64 == a + j / 64 && (64 * a + j) % 64 == j % 64;
  }

  lemma StoredRowBit(t: Matrix, r: nat, k: nat, w: word, r': nat, a: nat, j: nat)
    requires r < |t| && 8 * k + 8 <= |t[r]| && r' < |t| && 64 * a + j < 8 * |t[r']|
    ensures IsBitSet(t[r := StoreAt(t[r], k, w)][r'], 64 * a + j) ==
      if r' == r && a + j / 64 == k then WordBit(w, j % 64) else IsBitSet(t[r'], 64 * a + j)
  {
    hide WordBit, IsBitSet, StoreAt;
    if r == r' {
      StoredBit(t[r], k, w, a, j);
    }
  }

  /** It changes the 64 bits of that word and no others. */
  lemma PutWordBit(layout: Layout, t: Matrix, n: nat, idx: nat, q: nat, w: word, idx': nat, i: nat, j: nat)
    requires Shape(layout, t, n) && idx < n && q < WORDS && idx' < n && i < SIZE && j < SIZE
    ensures BlockBit(layout, PutWord(layout, t, n, idx, q, w), n, idx', i, j) ==
      if idx' == idx && q == 8 * i + j / 64 then WordBit(w, j % 64) else BlockBit(layout, t, n, idx', i, j)
  {
    hide WordBit, IsBitSet, StoreAt, Layout.Row, Layout.WordColumn, Layout.Width, Layout.Rows;
    var h, k := q / 8, q % 8;
    BlockInside(layout, n, idx, h, 64 * k + 63);
    BlockInside(layout, n, idx', i, j);
    WordPlace(layout, idx, q, idx', i, j / 64);
    StoredRowBit(t, layout.Row(idx, h), layout.WordColumn(idx) + k, w, layout.Row(idx', i), layout.WordColumn(idx'), j);
  }

  // ----- transposes of whole matrices

  /** t has bit (c, r) where m has bit (r, c). */
  ghost predicate IsTranspose(m: Matrix, t: Matrix) {
    && (forall r: nat :: r < |m| ==> 8 * |m[r]| == |t|)
    && (forall c: nat :: c < |t| ==> 8 * |t[c]| == |m|)
    && forall r: nat, c: nat :: r < |m| && c < |t| ==> IsBitSet(t[c], r) == IsBitSet(m[r], c)
  }

  /** Transposing twice gives the matrix back. */
  lemma TransposeTwice(m: Matrix, t: Matrix, m': Matrix)
    requires IsTranspose(m, t) && IsTranspose(t, m') && |t| > 0
    ensures m' == m
  {
    hide IsBitSet;
    assert |m'| == |m| by {
      assert 8 * |t[0]| == |m| && 8 * |t[0]| == |m'|;
    }
    forall r: nat | r < |m|
      ensures m'[r] == m[r]
    {
      assert 8 * |m[r]| == |t| && 8 * |m'[r]| == |t|;
      forall i: nat | i < |t|
        ensures IsBitSet(m'[r], i) == IsBitSet(m[r], i)
      {
        assert IsBitSet(t[i], r) == IsBitSet(m[r], i);
        assert IsBitSet(m'[r], i) == IsBitSet(t[i], r);
      }
      RowFromBits(m'[r], m[r]);
    }
  }
}
