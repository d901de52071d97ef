/** The word-wise kernels of internal/util/bits_generic.go and their concurrent split in
    internal/util/bits.go. Xor, And, DoubleXor and AndXor differ in the operator alone. */
module BitOps {
  import opened UintBits
  import opened Words
  import opened LittleEndian

  datatype Op = Xor | And | DoubleXor | AndXor

  /** What an operator makes of the bits of dst, a and b; the first two operators ignore b. */
  predicate OnBits(op: Op, d: bool, a: bool, b: bool) {
    match op
    case Xor => d != a
    case And => d && a
    case DoubleXor => (d != a) != b
    case AndXor => (d && a) != b
  }

  function OnWords(op: Op, d: word, a: word, b: word): word {
    match op
    case Xor => XorW(d, a)
    case And => AndW(d, a)
    case DoubleXor => XorW(XorW(d, a), b)
    case AndXor => XorW(AndW(d, a), b)
  }

  function XorB(x: byte, y: byte): byte {
    x ^ y
  }

  function AndB(x: byte, y: byte): byte {
    x & y
  }

  function OnBytes(op: Op, d: byte, a: byte, b: byte): byte {
    match op
    case Xor => XorB(d, a)
    case And => AndB(d, a)
    case DoubleXor => XorB(XorB(d, a), b)
    case AndXor => XorB(AndB(d, a), b)
  }

  /** The operator applied byte by byte. */
  function OnRows(op: Op, d: seq<byte>, a: seq<byte>, b: seq<byte>): (r: seq<byte>)
    requires |d| == |a| == |b|
    ensures |r| == |d|
  {
    seq(|d|, k requires 0 <= k < |d| => OnBytes(op, d[k], a[k], b[k]))
  }

  predicate OneHot8(m: byte) {
    m != 0 && m & (m - 1) == 0
  }

  lemma XorByteBit(x: byte, y: byte, m: byte)
    requires OneHot8(m)
    ensures OnB(x ^ y, m) <==> OnB(x, m) != OnB(y, m)
  {
  }

  lemma AndByteBit(x: byte, y: byte, m: byte)
    requires OneHot8(m)
    ensures OnB(x & y, m) <==> OnB(x, m) && OnB(y, m)
  {
  }

  lemma ByteOps(x: byte, y: byte, m: byte)
    requires OneHot8(m)
    ensures OnB(XorB(x, y), m) <==> OnB(x, m) != OnB(y, m)
    ensures OnB(AndB(x, y), m) <==> OnB(x, m) && OnB(y, m)
  {
    hide OneHot8, OnB;
    XorByteBit(x, y, m);
    AndByteBit(x, y, m);
  }

  lemma One8IsHot(c: nat)
    requires c < 8
    ensures OneHot8(One8(c))
  {
    if
    case c == 0 => assert One8(0) == 0x01;
    case c == 1 => assert One8(1) == 0x02;
    case c == 2 => assert One8(2) == 0x04;
    case c == 3 => assert One8(3) == 0x08;
    case c == 4 => assert One8(4) == 0x10;
    case c == 5 => assert One8(5) == 0x20;
    case c == 6 => assert One8(6) == 0x40;
    case c == 7 => assert One8(7) == 0x80;
  }

  lemma ByteOpBits(x: byte, y: byte, c: nat)
    requires c < 8
    ensures ByteBit(XorB(x, y), c) == (ByteBit(x, c) != ByteBit(y, c))
    ensures ByteBit(AndB(x, y), c) == (ByteBit(x, c) && ByteBit(y, c))
  {
    hide One8, XorB, AndB, OnB, OneHot8;
    One8IsHot(c);
    ByteOps(x, y, One8(c));
  }

  lemma OnBytesBit(op: Op, d: byte, a: byte, b: byte, c: nat)
    requires c < 8
    ensures ByteBit(OnBytes(op, d, a, b), c) == OnBits(op, ByteBit(d, c), ByteBit(a, c), ByteBit(b, c))
  {
    hide ByteBit, XorB, AndB;
    ByteOpBits(d, a, c);
    ByteOpBits(XorB(d, a), b, c);
    ByteOpBits(AndB(d, a), b, c);
  }

  lemma OnWordsBit(op: Op, d: word, a: word, b: word, c: nat)
    requires c < 64
    ensures WordBit(OnWords(op, d, a, b), c) == OnBits(op, WordBit(d, c), WordBit(a, c), WordBit(b, c))
  {
    hide One, On, XorW, AndW, OneHot;
    OneIsHot(c);
    XorAt(d, a, One(c));
    AndAt(d, a, One(c));
    XorAt(XorW(d, a), b, One(c));
    XorAt(AndW(d, a), b, One(c));
  }

  /** Eight bytes taken as one word give the same bytes. */
  lemma WordIsEightBytes(op: Op, d: seq<byte>, a: seq<byte>, b: seq<byte>)
    requires |d| == |a| == |b| == 8
    ensures Store(OnWords(op, Load(d), Load(a), Load(b)), 8) == OnRows(op, d, a, b)
  {
    hide WordBit, ByteBit, Store, Load, OnWords, OnBytes;
    var w, r := OnWords(op, Load(d), Load(a), Load(b)), OnRows(op, d, a, b);
    forall i: nat | i < 64
      ensures IsBitSet(Store(w, 8), i) == IsBitSet(r, i)
    {
      WordBitIsByteBit(op, d, a, b, i);
    }
    hide IsBitSet;
    RowFromBits(Store(w, 8), r);
  }

  lemma WordBitIsByteBit(op: Op, d: seq<byte>, a: seq<byte>, b: seq<byte>, i: nat)
    requires |d| == |a| == |b| == 8 && i < 64
    ensures IsBitSet(Store(OnWords(op, Load(d), Load(a), Load(b)), 8), i) == IsBitSet(OnRows(op, d, a, b), i)
  {
    hide WordBit, ByteBit, Store, Load, OnWords, OnBytes;
    StoreBit(OnWords(op, Load(d), Load(a), Load(b)), 8, i);
    OnWordsBit(op, Load(d), Load(a), Load(b), i);
    LoadBit(d, i);
    LoadBit(a, i);
    LoadBit(b, i);
    OnBytesBit(op, d[i / 8], a[i / 8], b[i / 8], i % 8);
  }

  // ----- the kernels, in place

  /** From position lo on, s has the values of goal below p and from q on; elsewhere it is s0. */
  ghost predicate Filled<T>(s0: seq<T>, s: seq<T>, lo: nat, goal: seq<T>, p: nat, q: nat)
    requires p <= q <= |goal| && lo + |goal| <= |s0|
  {
    && |s| == |s0|
    && forall i: nat {:trigger s[i]} :: i < |s| ==>
         s[i] == if lo <= i < lo + p || lo + q <= i < lo + |goal| then goal[i - lo] else s0[i]
  }

  lemma FilledStart<T>(s: seq<T>, lo: nat, goal: seq<T>)
    requires lo + |goal| <= |s|
    ensures Filled(s, s, lo, goal, 0, |goal|)
  {
  }

  lemma FillWord<T>(s0: seq<T>, s: seq<T>, s': seq<T>, lo: nat, goal: seq<T>, p: nat, q: nat)
    requires p + 8 <= q <= |goal| && lo + |goal| <= |s0| && Filled(s0, s, lo, goal, p, q) && |s'| == |s|
    requires forall i: nat {:trigger s'[i]} :: i < |s| ==>
               s'[i] == if lo + p <= i < lo + p + 8 then goal[i - lo] else s[i]
    ensures Filled(s0, s', lo, goal, p + 8, q)
  {
    forall i: nat | i < |s'|
      ensures s'[i] == if lo <= i < lo + (p + 8) || lo + q <= i < lo + |goal| then goal[i - lo] else s0[i]
    {
      assert s[i] == if lo <= i < lo + p || lo + q <= i < lo + |goal| then goal[i - lo] else s0[i];
    }
  }

  lemma FillByte<T>(s0: seq<T>, s: seq<T>, lo: nat, goal: seq<T>, p: nat, q: nat)
    requires p < q <= |goal| && lo + |goal| <= |s0| && Filled(s0, s, lo, goal, p, q)
    ensures Filled(s0, s[lo + q - 1 := goal[q - 1]], lo, goal, p, q - 1)
  {
    var s' := s[lo + q - 1 := goal[q - 1]];
    forall i: nat | i < |s'|
      ensures s'[i] == if lo <= i < lo + p || lo + (q - 1) <= i < lo + |goal| then goal[i - lo] else s0[i]
    {
      assert s[i] == if lo <= i < lo + p || lo + q <= i < lo + |goal| then goal[i - lo] else s0[i];
    }
  }

  lemma FilledEnd<T>(s0: seq<T>, s: seq<T>, lo: nat, goal: seq<T>, p: nat)
    requires p <= |goal| && lo + |goal| <= |s0| && Filled(s0, s, lo, goal, p, p)
    ensures s == s0[..lo] + goal + s0[lo + |goal|..]
  {
    forall i: nat | i < |s|
      ensures s[i] == (s0[..lo] + goal + s0[lo + |goal|..])[i]
    {
    }
  }

  lemma SliceOfSlice<T>(s: seq<T>, lo: nat, hi: nat, p: nat, q: nat)
    requires lo <= hi <= |s| && p <= q <= hi - lo
    ensures s[lo..hi][p..q] == s[lo + p..lo + q]
  {
    var l, r := s[lo..hi][p..q], s[lo + p..lo + q];
    forall i: nat | i < |l|
      ensures l[i] == r[i]
    {
      assert l[i] == s[lo..hi][p + i];
      assert r[i] == s[(lo + p) + i];
    }
  }

  lemma OnRowsSlice(op: Op, d: seq<byte>, a: seq<byte>, b: seq<byte>, p: nat, q: nat)
    requires |d| == |a| == |b| && p <= q <= |d|
    ensures OnRows(op, d[p..q], a[p..q], b[p..q]) == OnRows(op, d, a, b)[p..q]
  {
    hide OnBytes;
  }

  /** What is not yet filled is still as it was. */
  lemma StillOld<T>(s0: seq<T>, s: seq<T>, lo: nat, goal: seq<T>, p: nat, q: nat, from: nat, to: nat)
    requires p <= q <= |goal| && lo + |goal| <= |s0| && Filled(s0, s, lo, goal, p, q) && p <= from <= to <= q
    ensures s[lo + from..lo + to] == s0[lo + from..lo + to]
  {
    forall i: nat {:trigger s[i]} | lo + from <= i < lo + to
      ensures s[i] == s0[i]
    {
    }
  }

  /** Xor, And, DoubleXor and AndXor on dst[lo:hi]: words first, then the last bytes backwards. */
  method Kernel(op: Op, dst: array<byte>, lo: nat, hi: nat, a: seq<byte>, b: seq<byte>)
    requires lo <= hi <= dst.Length && |a| == |b| == hi - lo
    modifies dst
    ensures dst[..] == old(dst[..lo]) + OnRows(op, old(dst[lo..hi]), a, b) + old(dst[hi..])
  {
    hide OnBytes, OnWords, Load, Store, Filled;
    ghost var s0, d := dst[..], dst[lo..hi];
    ghost var goal := OnRows(op, d, a, b);
    var n := hi - lo;
    FilledStart(s0, lo, goal);
    for i := 0 to n / 8
      invariant Filled(s0, dst[..], lo, goal, 8 * i, n)
    {
      KernelWord(op, dst, lo, 8 * i, a, b, s0, d);
    }
    for j := 0 to n % 8
      invariant Filled(s0, dst[..], lo, goal, 8 * (n / 8), n - j)
    {
      ghost var s, q := dst[..], n - j;
      StillOld(s0, s, lo, goal, 8 * (n / 8), q, q - 1, q);
      assert s[lo + (q - 1)..lo + q][0] == s0[lo + (q - 1)..lo + q][0];
      dst[hi - j - 1] := OnBytes(op, dst[hi - j - 1], a[n - j - 1], b[n - j - 1]);
      assert dst[..] == s[lo + q - 1 := goal[q - 1]];
      FillByte(s0, s, lo, goal, 8 * (n / 8), q);
    }
    FilledEnd(s0, dst[..], lo, goal, 8 * (n / 8));
  }

  /** One turn of the loop over words, at byte p of the slice. */
  method KernelWord(op: Op, dst: array<byte>, lo: nat, p: nat, a: seq<byte>, b: seq<byte>, ghost s0: seq<byte>,
                    ghost d: seq<byte>)
    requires |a| == |b| == |d| && lo + |d| <= dst.Length == |s0| && d == s0[lo..lo + |d|] && p + 8 <= |d|
    requires Filled(s0, dst[..], lo, OnRows(op, d, a, b), p, |d|)
    modifies dst
    ensures Filled(s0, dst[..], lo, OnRows(op, d, a, b), p + 8, |d|)
  {
    hide OnBytes, OnWords, Load, Store, Filled, OnRows;
    ghost var s, goal := dst[..], OnRows(op, d, a, b);
    StillOld(s0, s, lo, goal, p, |d|, p, p + 8);
    var x := Load(dst[lo + p..lo + p + 8]);
    var bytes := Store(OnWords(op, x, Load(a[p..p + 8]), Load(b[p..p + 8])), 8);
    WordIsEightBytes(op, d[p..p + 8], a[p..p + 8], b[p..p + 8]);
    SliceOfSlice(s0, lo, lo + |d|, p, p + 8);
    OnRowsSlice(op, d, a, b, p, p + 8);
    assert dst[lo + p..lo + p + 8] == s[lo + p..lo + (p + 8)];
    assert bytes == goal[p..p + 8];
    forall k | 0 <= k < 8 {
      dst[lo + p + k] := bytes[k];
    }
    FillWord(s0, s, dst[..], lo, goal, p, |d|);
  }

  // ----- the concurrent split

  const SPLIT: nat := 16384

  /** The worker in whose slice position i lies; the last one has the excess. */
  function Owner(i: nat, size: nat, workers: nat): nat
    requires size > 0 && workers > 0
  {
    if i / size < workers - 1 then i / size else workers - 1
  }

  /** The slice of worker w. */
  lemma OwnerSlice(n: nat, workers: nat, size: nat, w: nat, i: nat)
    requires workers > 0 && size == n / workers && size > 0 && w < workers && i < n
    ensures var step := size * w;
      var end := if w == workers - 1 then n else step + size;
      step <= end <= n && (Owner(i, size, workers) == w <==> step <= i < end)
  {
    var q := i / size;
    assert i == q * size + i % size;
    assert n == size * workers + n % workers;
    MulMonotone(w + 1, workers, size);
    assert (w + 1) * size == size * w + size;
    QuotientBelow(i, size, w);
    QuotientBelow(i, size, w + 1);
    assert w * size == size * w && (w + 1) * size == size * w + size;
  }

  /** The slices of the waiting workers are as they were and all others have their goal. */
  ghost predicate SlicesDone<T>(s0: seq<T>, s: seq<T>, goal: seq<T>, size: nat, workers: nat, waiting: set<nat>)
    requires size > 0 && workers > 0
  {
    && |s0| == |s| == |goal|
    && forall i: nat {:trigger s[i]} :: i < |s| ==>
         s[i] == if Owner(i, size, workers) in waiting then s0[i] else goal[i]
  }

  lemma SlicesStart<T>(s: seq<T>, goal: seq<T>, size: nat, workers: nat)
    requires |s| == |goal| && size > 0 && workers > 0
    ensures SlicesDone(s, s, goal, size, workers, Below(workers))
  {
  }

  lemma SliceStep<T>(s0: seq<T>, s: seq<T>, goal: seq<T>, size: nat, workers: nat, waiting: set<nat>, w: nat,
                     step: nat, end: nat)
    requires workers > 0 && size == |s0| / workers && size > 0 && w in waiting && w < workers
    requires SlicesDone(s0, s, goal, size, workers, waiting)
    requires step == size * w && end == (if w == workers - 1 then |s0| else step + size) && step <= end <= |s0|
    ensures SlicesDone(s0, s[..step] + goal[step..end] + s[end..], goal, size, workers, waiting - {w})
    ensures s[step..end] == s0[step..end]
  {
    var s' := s[..step] + goal[step..end] + s[end..];
    forall i: nat | i < |s'|
      ensures s'[i] == if Owner(i, size, workers) in waiting - {w} then s0[i] else goal[i]
      ensures step <= i < end ==> s[i] == s0[i]
    {
      OwnerSlice(|s0|, workers, size, w, i);
      hide Owner;
      assert s[i] == if Owner(i, size, workers) in waiting then s0[i] else goal[i];
    }
  }

  lemma SlicesEnd<T>(s0: seq<T>, s: seq<T>, goal: seq<T>, size: nat, workers: nat)
    requires size > 0 && workers > 0 && SlicesDone(s0, s, goal, size, workers, {})
    ensures s == goal
  {
  }

  /** The operator on rows, bit by bit. */
  lemma OnRowsBit(op: Op, d: seq<byte>, a: seq<byte>, b: seq<byte>, i: nat)
    requires |d| == |a| == |b| && i < 8 * |d|
    ensures IsBitSet(OnRows(op, d, a, b), i) == OnBits(op, IsBitSet(d, i), IsBitSet(a, i), IsBitSet(b, i))
  {
    hide ByteBit, OnBytes;
    OnBytesBit(op, d[i / 8], a[i / 8], b[i / 8], i % 8);
  }

  /** ConcurrentBitOp and ConcurrentDoubleBitOp: the slices of the workers are processed in any
      order, and the result is that of one call. */
  method ConcurrentOp(op: Op, dst: array<byte>, a: seq<byte>, b: seq<byte>, workers: nat)
    requires |a| == |b| == dst.Length && workers > 0
    modifies dst
    ensures dst[..] == OnRows(op, old(dst[..]), a, b)
    ensures forall i: nat :: i < 8 * dst.Length ==>
              var (d, x, y) := (IsBitSet(old(dst[..]), i), IsBitSet(a, i), IsBitSet(b, i));
              IsBitSet(dst[..], i) == match op
                                      case Xor => d != x
                                      case And => d && x
                                      case DoubleXor => (d != x) != y
                                      case AndXor => (d && x) != y
  {
    hide IsBitSet, OnRows;
    RunSplit(op, dst, a, b, workers);
    forall i: nat | i < 8 * dst.Length
      ensures IsBitSet(dst[..], i) == OnBits(op, IsBitSet(old(dst[..]), i), IsBitSet(a, i), IsBitSet(b, i))
    {
      OnRowsBit(op, old(dst[..]), a, b, i);
    }
  }

  /** One call for a short slice, and one for the slice of each worker otherwise. */
  method RunSplit(op: Op, dst: array<byte>, a: seq<byte>, b: seq<byte>, workers: nat)
    requires |a| == |b| == dst.Length && workers > 0
    modifies dst
    ensures dst[..] == OnRows(op, old(dst[..]), a, b)
  {
    hide OnBytes, SlicesDone;
    ghost var s0 := dst[..];
    if dst.Length < workers * SPLIT {
      Kernel(op, dst, 0, dst.Length, a, b);
      assert s0[0..dst.Length] == s0;
    } else {
      ghost var goal := OnRows(op, s0, a, b);
      var size := dst.Length / workers;
      QuotientBelow(dst.Length, workers, SPLIT);
      var waiting := Below(workers);
      SlicesStart(s0, goal, size, workers);
      while waiting != {}
        invariant waiting <= Below(workers)
        invariant SlicesDone(s0, dst[..], goal, size, workers, waiting)
      {
        var w: nat :| w in waiting;
        SplitStep(op, dst, a, b, workers, size, waiting, w, s0);
        waiting := waiting - {w};
      }
      SlicesEnd(s0, dst[..], goal, size, workers);
    }
  }

  /** The work of worker w. */
  method SplitStep(op: Op, dst: array<byte>, a: seq<byte>, b: seq<byte>, workers: nat, size: nat,
                   ghost waiting: set<nat>, w: nat, ghost s0: seq<byte>)
    requires |a| == |b| == |s0| == dst.Length && workers > 0 && size == dst.Length / workers && size > 0
    requires w < workers && w in waiting
    requires SlicesDone(s0, dst[..], OnRows(op, s0, a, b), size, workers, waiting)
    modifies dst
    ensures SlicesDone(s0, dst[..], OnRows(op, s0, a, b), size, workers, waiting - {w})
  {
    hide OnBytes, SlicesDone, OnRows;
    var step := size * w;
    var end := if w == workers - 1 then dst.Length else step + size;
    OwnerSlice(dst.Length, workers, size, w, 0);
    ghost var s, goal := dst[..], OnRows(op, s0, a, b);
    SliceStep(s0, s, goal, size, workers, waiting, w, step, end);
    OnRowsSlice(op, s0, a, b, step, end);
    SlicesOf(dst, step, end);
    Kernel(op, dst, step, end, a[step..end], b[step..end]);
    assert dst[..] == s[..step] + goal[step..end] + s[end..];
  }

  lemma SlicesOf<T>(a: array<T>, lo: nat, hi: nat)
    requires lo <= hi <= a.Length
    ensures a[..lo] == a[..][..lo] && a[lo..hi] == a[..][lo..hi] && a[hi..] == a[..][hi..]
  {
  }
}
