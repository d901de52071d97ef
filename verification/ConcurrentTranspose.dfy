/** ConcurrentTransposeTall and ConcurrentTransposeWide: a pool of workers, each with its own
    BitVect, transposes the blocks of a matrix into one shared output. A scheduler lets any
    worker take any next step: read a block, transpose it in place, or write one of its words. */
module ConcurrentTranspose {
  import opened Sequences
  import opened Words
  import opened LittleEndian
  import opened BitMatrix
  import opened Blocks

  /** Where a worker stands with block `next`. */
  datatype Phase = Fetch | Turn | Write(q: nat)

  datatype Worker = Worker(next: nat, phase: Phase) {
    /** The worker has written word q of block idx. */
    predicate HasWritten(idx: nat, q: nat) {
      idx < next || (idx == next && phase.Write? && q < phase.q)
    }

    /** An upper bound for the steps the worker still has to take. */
    function Work(hi: nat): nat
      requires next <= hi && (phase.Write? ==> phase.q < WORDS)
    {
      if next == hi then 0
      else (hi - next) * (WORDS + 3) - (match phase case Fetch => 0 case Turn => 1 case Write(q) => 2 + q)
    }
  }

  // ----- the split of n blocks among the workers

  function Low(n: nat, workers: nat, v: nat): nat
    requires workers > 0
  {
    (n / workers) * v
  }

  function High(n: nat, workers: nat, v: nat): nat
    requires workers > 0
  {
    if v == workers - 1 then n else (n / workers) * v + n / workers
  }

  /** Every block has an owner, and only one, since the shares follow one another. */
  lemma OwnerExists(n: nat, workers: nat, idx: nat) returns (v: nat)
    requires workers > 0 && idx < n
    ensures v < workers && Low(n, workers, v) <= idx < High(n, workers, v)
  {
    var share := n / workers;
    if share * (workers - 1) <= idx {
      v := workers - 1;
    } else {
      assert share * (workers - 1) == (workers - 1) * share;
      QuotientBelow(idx, share, workers - 1);
      v := idx / share;
      assert idx == v * share + idx % share && v * share == share * v;
    }
  }

  lemma SharesOrdered(n: nat, workers: nat, u: nat, v: nat)
    requires workers > 0 && u <= v < workers
    ensures Low(n, workers, u) <= High(n, workers, u) <= n
    ensures u < v ==> High(n, workers, u) <= Low(n, workers, v)
  {
    var share := n / workers;
    assert n == share * workers + n % workers;
    MulMonotone(u + 1, workers, share);
    assert share * u + share == (u + 1) * share;
    if u < v {
      MulMonotone(u + 1, v, share);
      assert (u + 1) * share <= v * share == share * v;
    }
  }

  // ----- what a worker knows

  /** Bit (i, j) of block idx of the output is bit (j, i) of that block of the input. */
  predicate BitRight(layout: Layout, m: Matrix, t: Matrix, n: nat, idx: nat, i: nat, j: nat)
    requires Shape(layout, m, n) && Shape(layout.Other(), t, n) && idx < n && i < SIZE && j < SIZE
  {
    BlockBit(layout.Other(), t, n, idx, i, j) == BlockBit(layout, m, n, idx, j, i)
  }

  /** So it is for the bits of word q of block idx. */
  ghost predicate WordRight(layout: Layout, m: Matrix, t: Matrix, n: nat, idx: nat, q: nat)
    requires Shape(layout, m, n) && Shape(layout.Other(), t, n) && idx < n && q < WORDS
  {
    forall j: nat :: j < SIZE && q == 8 * (q / 8) + j / 64 ==> BitRight(layout, m, t, n, idx, q / 8, j)
  }

  ghost predicate WorkerOk(layout: Layout, m: Matrix, t: Matrix, n: nat, words: seq<word>, low: nat, high: nat,
                           w: Worker)
    requires Shape(layout, m, n) && Shape(layout.Other(), t, n) && |words| == WORDS
  {
    && low <= w.next <= high <= n
    && (w.next == high ==> w.phase.Fetch?)
    && (w.phase.Turn? ==> HoldsBlock(words, layout, m, n, w.next))
    && (w.phase.Write? ==> w.phase.q < WORDS && HoldsTransposedBlock(words, layout, m, n, w.next))
    && forall idx: nat, q: nat :: low <= idx < high && q < WORDS && w.HasWritten(idx, q) ==>
         WordRight(layout, m, t, n, idx, q)
  }

  /** Transposing the words of a block. */
  lemma TurnBlock(layout: Layout, m: Matrix, n: nat, idx: nat, words: seq<word>, words': seq<word>)
    requires Shape(layout, m, n) && idx < n && |words| == |words'| == WORDS
    requires HoldsBlock(words, layout, m, n, idx) && Transposed(words, words')
    ensures HoldsTransposedBlock(words', layout, m, n, idx)
  {
    hide At, BlockBit;
  }

  /** Writing a word makes it right and leaves all others as they were. */
  lemma WriteWord(layout: Layout, m: Matrix, t: Matrix, n: nat, words: seq<word>, idx: nat, q: nat)
    requires Shape(layout, m, n) && Shape(layout.Other(), t, n) && idx < n && q < WORDS && |words| == WORDS
    requires HoldsTransposedBlock(words, layout, m, n, idx)
    ensures WordRight(layout, m, PutWord(layout.Other(), t, n, idx, q, words[q]), n, idx, q)
  {
    hide BlockBit, WordBit, PutWord, Shape;
    var t' := PutWord(layout.Other(), t, n, idx, q, words[q]);
    var i := q / 8;
    forall j: nat | j < SIZE && q == 8 * i + j / 64
      ensures BitRight(layout, m, t', n, idx, i, j)
    {
      PutWordBit(layout.Other(), t, n, idx, q, words[q], idx, i, j);
      assert At(words, i, j) == BlockBit(layout, m, n, idx, j, i);
    }
  }

  lemma KeepWord(layout: Layout, m: Matrix, t: Matrix, n: nat, x: word, idx: nat, q: nat, idx': nat, q': nat)
    requires Shape(layout, m, n) && Shape(layout.Other(), t, n) && idx < n && q < WORDS && idx' < n && q' < WORDS
    requires (idx', q') != (idx, q) && WordRight(layout, m, t, n, idx', q')
    ensures WordRight(layout, m, PutWord(layout.Other(), t, n, idx, q, x), n, idx', q')
  {
    hide BlockBit, WordBit, PutWord, Shape;
    var t' := PutWord(layout.Other(), t, n, idx, q, x);
    var i := q' / 8;
    forall j: nat | j < SIZE && q' == 8 * i + j / 64
      ensures BitRight(layout, m, t', n, idx', i, j)
    {
      PutWordBit(layout.Other(), t, n, idx, q, x, idx', i, j);
      assert BitRight(layout, m, t, n, idx', i, j);
    }
  }

  // ----- one step of a worker

  /** The words a worker has written stay right while it writes word q of its block. */
  lemma WriteStep(layout: Layout, m: Matrix, t: Matrix, n: nat, words: seq<word>, low: nat, high: nat, w: Worker)
    requires Shape(layout, m, n) && Shape(layout.Other(), t, n) && |words| == WORDS
    requires WorkerOk(layout, m, t, n, words, low, high, w) && w.phase.Write?
    ensures WorkerOk(layout, m, PutWord(layout.Other(), t, n, w.next, w.phase.q, words[w.phase.q]), n, words, low, high,
                     AfterWrite(w))
  {
    hide HoldsTransposedBlock, HoldsBlock, WordRight, PutWord, Shape;
    var q, x, w' := w.phase.q, words[w.phase.q], AfterWrite(w);
    var t' := PutWord(layout.Other(), t, n, w.next, q, x);
    forall idx: nat, q': nat | low <= idx < high && q' < WORDS && w'.HasWritten(idx, q')
      ensures WordRight(layout, m, t', n, idx, q')
    {
      if idx == w.next && q' == q {
        WriteWord(layout, m, t, n, words, idx, q);
      } else {
        assert w.HasWritten(idx, q');
        KeepWord(layout, m, t, n, x, w.next, q, idx, q');
      }
    }
  }

  function AfterWrite(w: Worker): Worker
    requires w.phase.Write?
  {
    if w.phase.q + 1 < WORDS then w.(phase := Write(w.phase.q + 1)) else Worker(w.next + 1, Fetch)
  }

  /** The next step of a worker with work left: read its block, transpose it, or run the inner
      body of ravelToWide or ravelToTall once. */
  method Step(b: BitVect, layout: Layout, m: Matrix, trans: array<seq<byte>>, n: nat, w: Worker, low: nat, high: nat)
    returns (w': Worker)
    requires b.Valid() && b.words as object != trans
    requires Shape(layout, m, n) && Shape(layout.Other(), trans[..], n)
    requires WorkerOk(layout, m, trans[..], n, b.words[..], low, high, w) && w.next < high
    modifies b.words, trans
    ensures Shape(layout.Other(), trans[..], n)
    ensures WorkerOk(layout, m, trans[..], n, b.words[..], low, high, w')
    ensures !w.phase.Write? ==> trans[..] == old(trans[..])
    ensures w.phase.Write? ==> w.phase.q < WORDS && exists x: word ::
              trans[..] == PutWord(layout.Other(), old(trans[..]), n, w.next, w.phase.q, x)
    ensures w'.Work(high) < w.Work(high)
  {
    ghost var words, t := b.words[..], trans[..];
    match w.phase
    case Fetch =>
      hide WordRight, Shape, PutWord;
      Unravel(b, layout, m, n, w.next);
      w' := w.(phase := Turn);
      assert trans[..] == t;
    case Turn =>
      hide WordRight, Shape, PutWord;
      b.Transpose();
      TurnBlock(layout, m, n, w.next, words, b.words[..]);
      w' := w.(phase := Write(0));
      assert trans[..] == t;
    case Write(q) =>
      hide HoldsTransposedBlock, HoldsBlock, WordRight;
      var out := layout.Other();
      BlockInside(out, n, w.next, q / 8, 64 * (q % 8) + 63);
      var r := out.Row(w.next, q / 8);
      trans[r] := StoreAt(trans[r], out.WordColumn(w.next) + q % 8, b.words[q]);
      assert trans[..] == PutWord(out, t, n, w.next, q, words[q]);
      WriteStep(layout, m, t, n, words, low, high, w);
      w' := if q + 1 < WORDS then w.(phase := Write(q + 1)) else Worker(w.next + 1, Fetch);
  }

  /** A write to a block of one worker leaves the words of the other workers alone. */
  lemma OthersKeep(layout: Layout, m: Matrix, t: Matrix, n: nat, words: seq<word>, low: nat, high: nat, w: Worker,
                   idx: nat, q: nat, x: word)
    requires Shape(layout, m, n) && Shape(layout.Other(), t, n) && |words| == WORDS && idx < n && q < WORDS
    requires WorkerOk(layout, m, t, n, words, low, high, w) && !(low <= idx < high)
    ensures WorkerOk(layout, m, PutWord(layout.Other(), t, n, idx, q, x), n, words, low, high, w)
  {
    hide HoldsTransposedBlock, HoldsBlock, WordRight, PutWord, Shape;
    forall idx': nat, q': nat | low <= idx' < high && q' < WORDS && w.HasWritten(idx', q')
      ensures WordRight(layout, m, PutWord(layout.Other(), t, n, idx, q, x), n, idx', q')
    {
      KeepWord(layout, m, t, n, x, idx, q, idx', q');
    }
  }

  // ----- the pool

  /** Every worker is where it should be; words[v] is what the BitVect of worker v holds. */
  ghost predicate PoolOk(layout: Layout, m: Matrix, t: Matrix, n: nat, words: seq<seq<word>>, ws: seq<Worker>)
    requires Shape(layout, m, n) && Shape(layout.Other(), t, n)
  {
    && 0 < |words| == |ws|
    && (forall v: nat :: v < |ws| ==> |words[v]| == WORDS)
    && forall v: nat :: v < |ws| ==>
         WorkerOk(layout, m, t, n, words[v], Low(n, |ws|, v), High(n, |ws|, v), ws[v])
  }

  /** A step of worker v keeps the others where they should be. */
  lemma PoolStep(layout: Layout, m: Matrix, t: Matrix, t': Matrix, n: nat, words: seq<seq<word>>,
                 words': seq<seq<word>>, ws: seq<Worker>, v: nat, w': Worker)
    requires Shape(layout, m, n) && Shape(layout.Other(), t, n) && Shape(layout.Other(), t', n)
    requires PoolOk(layout, m, t, n, words, ws) && v < |ws| && ws[v].next < High(n, |ws|, v)
    requires |words'| == |words| && forall u: nat :: u < |words| && u != v ==> words'[u] == words[u]
    requires |words'[v]| == WORDS && WorkerOk(layout, m, t', n, words'[v], Low(n, |ws|, v), High(n, |ws|, v), w')
    requires !ws[v].phase.Write? ==> t' == t
    requires ws[v].phase.Write? ==> ws[v].phase.q < WORDS && ws[v].next < n && exists x: word ::
               t' == PutWord(layout.Other(), t, n, ws[v].next, ws[v].phase.q, x)
    ensures PoolOk(layout, m, t', n, words', ws[v := w'])
  {
    hide WorkerOk, PutWord, Shape;
    forall u: nat | u < |ws| && u != v
      ensures WorkerOk(layout, m, t', n, words'[u], Low(n, |ws|, u), High(n, |ws|, u), ws[u])
    {
      if ws[v].phase.Write? {
        var x: word :| t' == PutWord(layout.Other(), t, n, ws[v].next, ws[v].phase.q, x);
        NotMine(layout, m, t, n, words, ws, u, v);
        OthersKeep(layout, m, t, n, words[u], Low(n, |ws|, u), High(n, |ws|, u), ws[u], ws[v].next, ws[v].phase.q, x);
      }
    }
  }

  lemma NotMine(layout: Layout, m: Matrix, t: Matrix, n: nat, words: seq<seq<word>>, ws: seq<Worker>, u: nat, v: nat)
    requires Shape(layout, m, n) && Shape(layout.Other(), t, n) && PoolOk(layout, m, t, n, words, ws)
    requires u < |ws| && v < |ws| && u != v && ws[v].next < High(n, |ws|, v)
    ensures !(Low(n, |ws|, u) <= ws[v].next < High(n, |ws|, u))
  {
    hide Low, High;
    assert WorkerOk(layout, m, t, n, words[v], Low(n, |ws|, v), High(n, |ws|, v), ws[v]);
    if u < v {
      SharesOrdered(n, |ws|, u, v);
    } else {
      SharesOrdered(n, |ws|, v, u);
    }
  }

  /** No two workers share a BitVect. */
  ghost predicate Apart(bs: seq<BitVect>, trans: array<seq<byte>>) {
    && (forall v: nat :: v < |bs| ==> bs[v].words as object != trans)
    && forall u: nat, v: nat :: u < v < |bs| ==> bs[u].words != bs[v].words
  }

  ghost function Contents(bs: seq<BitVect>): (words: seq<seq<word>>)
    reads set b | b in bs :: b.words
    ensures |words| == |bs|
    ensures forall v: nat :: v < |bs| ==> words[v] == bs[v].words[..]
  {
    seq(|bs|, v requires 0 <= v < |bs| reads set b | b in bs :: b.words => bs[v].words[..])
  }

  ghost predicate InRange(n: nat, ws: seq<Worker>) {
    && |ws| > 0
    && forall v: nat :: v < |ws| ==>
         ws[v].next <= High(n, |ws|, v) && (ws[v].phase.Write? ==> ws[v].phase.q < WORDS)
  }

  lemma PoolInRange(layout: Layout, m: Matrix, t: Matrix, n: nat, words: seq<seq<word>>, ws: seq<Worker>)
    requires Shape(layout, m, n) && Shape(layout.Other(), t, n) && PoolOk(layout, m, t, n, words, ws)
    ensures InRange(n, ws)
  {
    hide High, Low, Shape;
    forall v: nat | v < |ws|
      ensures ws[v].next <= High(n, |ws|, v) && (ws[v].phase.Write? ==> ws[v].phase.q < WORDS)
    {
      assert WorkerOk(layout, m, t, n, words[v], Low(n, |ws|, v), High(n, |ws|, v), ws[v]);
    }
  }

  /** The steps left to all workers. */
  ghost function WorkLeft(n: nat, ws: seq<Worker>): (left: seq<nat>)
    requires InRange(n, ws)
  {
    seq(|ws|, v requires 0 <= v < |ws| => ws[v].Work(High(n, |ws|, v)))
  }

  lemma WorkDrops(n: nat, ws: seq<Worker>, v: nat, w': Worker)
    requires InRange(n, ws) && v < |ws| && InRange(n, ws[v := w'])
    requires w'.Work(High(n, |ws|, v)) < ws[v].Work(High(n, |ws|, v))
    ensures Sum(WorkLeft(n, ws[v := w'])) < Sum(WorkLeft(n, ws))
  {
    hide High, Worker.Work;
    SumUpdate(WorkLeft(n, ws), WorkLeft(n, ws[v := w']), v);
  }

  /** When no worker has work left, every bit is right. */
  lemma PoolDone(layout: Layout, m: Matrix, t: Matrix, n: nat, words: seq<seq<word>>, ws: seq<Worker>,
                 idx: nat, i: nat, j: nat)
    requires Shape(layout, m, n) && Shape(layout.Other(), t, n) && PoolOk(layout, m, t, n, words, ws)
    requires forall v: nat :: v < |ws| ==> ws[v].next == High(n, |ws|, v)
    requires idx < n && i < SIZE && j < SIZE
    ensures BitRight(layout, m, t, n, idx, i, j)
  {
    var v := OwnerExists(n, |ws|, idx);
    var q := 8 * i + j / 64;
    assert q / 8 == i;
    assert ws[v].HasWritten(idx, q);
    assert WordRight(layout, m, t, n, idx, q);
  }

  method NewPool(n: nat, workers: nat) returns (bs: seq<BitVect>, ws: seq<Worker>)
    requires workers > 0
    ensures |bs| == |ws| == workers
    ensures forall v: nat :: v < workers ==> ws[v] == Worker(Low(n, workers, v), Fetch)
    ensures forall v: nat :: v < workers ==> fresh(bs[v]) && fresh(bs[v].words) && bs[v].Valid()
    ensures forall u: nat, v: nat :: u < v < workers ==> bs[u].words != bs[v].words
  {
    bs, ws := [], [];
    for v := 0 to workers
      invariant |bs| == |ws| == v
      invariant forall u: nat :: u < v ==> ws[u] == Worker(Low(n, workers, u), Fetch)
      invariant forall u: nat :: u < v ==> fresh(bs[u]) && fresh(bs[u].words) && bs[u].Valid()
      invariant forall u: nat, v': nat :: u < v' < v ==> bs[u].words != bs[v'].words
    {
      var b := new BitVect();
      bs, ws := bs + [b], ws + [Worker(Low(n, workers, v), Fetch)];
    }
  }

  /** The step of worker v. */
  method StepOf(layout: Layout, m: Matrix, n: nat, bs: seq<BitVect>, ws: seq<Worker>, trans: array<seq<byte>>, v: nat)
    returns (ws': seq<Worker>)
    requires Shape(layout, m, n) && Shape(layout.Other(), trans[..], n)
    requires (forall v: nat :: v < |bs| ==> bs[v].Valid()) && Apart(bs, trans)
    requires PoolOk(layout, m, trans[..], n, Contents(bs), ws) && v < |ws| && ws[v].next < High(n, |ws|, v)
    modifies trans, bs[v].words
    ensures Shape(layout.Other(), trans[..], n)
    ensures PoolOk(layout, m, trans[..], n, Contents(bs), ws')
    ensures |ws'| == |ws| && InRange(n, ws) && InRange(n, ws') && Sum(WorkLeft(n, ws')) < Sum(WorkLeft(n, ws))
  {
    PoolInRange(layout, m, trans[..], n, Contents(bs), ws);
    hide PutWord, Shape, Sum, WorkLeft;
    ghost var t, words := trans[..], Contents(bs);
    var w' := Step(bs[v], layout, m, trans, n, ws[v], Low(n, |ws|, v), High(n, |ws|, v));
    ws' := ws[v := w'];
    forall u: nat | u < |bs| && u != v
      ensures bs[u].words[..] == words[u]
    {
      assert bs[u].words != bs[v].words;
    }
    hide WorkerOk;
    PoolStep(layout, m, t, trans[..], n, words, Contents(bs), ws, v, w');
    PoolInRange(layout, m, t, n, words, ws);
    PoolInRange(layout, m, trans[..], n, Contents(bs), ws');
    WorkDrops(n, ws, v, w');
  }

  /** All steps of all workers, in any order. */
  method RunPool(layout: Layout, m: Matrix, n: nat, bs: seq<BitVect>, start: seq<Worker>, trans: array<seq<byte>>)
    requires Shape(layout, m, n) && Shape(layout.Other(), trans[..], n)
    requires (forall v: nat :: v < |bs| ==> bs[v].Valid()) && Apart(bs, trans)
    requires PoolOk(layout, m, trans[..], n, Contents(bs), start)
    modifies trans, set b | b in bs :: b.words
    ensures Shape(layout.Other(), trans[..], n)
    ensures forall idx: nat, i: nat, j: nat :: idx < n && i < SIZE && j < SIZE ==>
              BitRight(layout, m, trans[..], n, idx, i, j)
  {
    hide Shape, Sum, WorkLeft, WorkerOk;
    var ws := start;
    PoolInRange(layout, m, trans[..], n, Contents(bs), ws);
    while exists v: nat :: v < |ws| && ws[v].next < High(n, |ws|, v)
      invariant Shape(layout.Other(), trans[..], n)
      invariant PoolOk(layout, m, trans[..], n, Contents(bs), ws) && InRange(n, ws)
      decreases Sum(WorkLeft(n, ws))
    {
      var v: nat :| v < |ws| && ws[v].next < High(n, |ws|, v);
      ws := StepOf(layout, m, n, bs, ws, trans, v);
    }
    forall idx: nat, i: nat, j: nat | idx < n && i < SIZE && j < SIZE
      ensures BitRight(layout, m, trans[..], n, idx, i, j)
    {
      PoolDone(layout, m, trans[..], n, Contents(bs), ws, idx, i, j);
    }
  }

  // ----- the two transposes

  /** The blocks of a matrix and of its transpose. */
  lemma BlocksToMatrix(layout: Layout, m: Matrix, t: Matrix, n: nat)
    requires Shape(layout, m, n) && Shape(layout.Other(), t, n)
    requires forall idx: nat, i: nat, j: nat :: idx < n && i < SIZE && j < SIZE ==> BitRight(layout, m, t, n, idx, i, j)
    ensures IsTranspose(m, t)
  {
    forall r: nat, c: nat | r < |m| && c < |t|
      ensures IsBitSet(t[c], r) == IsBitSet(m[r], c)
    {
      hide IsBitSet;
      if layout.Tall? {
        assert BitRight(layout, m, t, n, r / SIZE, c, r % SIZE);
        assert SIZE * (r / SIZE) + r % SIZE == r;
      } else {
        assert BitRight(layout, m, t, n, c / SIZE, c % SIZE, r);
        assert SIZE * (c / SIZE) + c % SIZE == c;
      }
    }
  }

  method TransposeBlocks(layout: Layout, m: Matrix, n: nat, workers: nat) returns (t: Matrix)
    requires Shape(layout, m, n) && workers > 0
    ensures Shape(layout.Other(), t, n) && IsTranspose(m, t)
  {
    var out := layout.Other();
    var zeros := seq(out.Width(n), _ => 0);
    var trans := new seq<byte>[out.Rows(n)](_ => zeros);
    var bs, ws := NewPool(n, workers);
    PoolStart(layout, m, trans[..], n, Contents(bs), ws);
    RunPool(layout, m, n, bs, ws, trans);
    t := trans[..];
    BlocksToMatrix(layout, m, t, n);
  }

  lemma PoolStart(layout: Layout, m: Matrix, t: Matrix, n: nat, words: seq<seq<word>>, ws: seq<Worker>)
    requires Shape(layout, m, n) && Shape(layout.Other(), t, n) && 0 < |words| == |ws|
    requires forall v: nat :: v < |ws| ==> |words[v]| == WORDS && ws[v] == Worker(Low(n, |ws|, v), Fetch)
    ensures PoolOk(layout, m, t, n, words, ws)
  {
    hide Low, High, Shape;
    forall v: nat | v < |ws|
      ensures WorkerOk(layout, m, t, n, words[v], Low(n, |ws|, v), High(n, |ws|, v), ws[v])
    {
      SharesOrdered(n, |ws|, v, v);
    }
  }

  /** ConcurrentTransposeTall, which panics unless the number of rows is a multiple of 512. */
  method ConcurrentTransposeTall(m: Matrix, workers: nat) returns (t: Matrix)
    requires |m| % SIZE == 0 && (forall r: nat :: r < |m| ==> |m[r]| == 64) && workers > 0
    ensures |t| == SIZE && IsTranspose(m, t)
  {
    t := TransposeBlocks(Tall, m, |m| / SIZE, workers);
  }

  /** ConcurrentTransposeWide, which panics unless the number of columns is a multiple of 64 bytes. */
  method ConcurrentTransposeWide(m: Matrix, workers: nat) returns (t: Matrix)
    requires |m| == SIZE && |m[0]| % 64 == 0 && (forall r: nat :: r < |m| ==> |m[r]| == |m[0]|) && workers > 0
    ensures |t| == 8 * |m[0]| && IsTranspose(m, t)
  {
    t := TransposeBlocks(Wide, m, |m[0]| / 64, workers);
  }

  /** The two undo each other, whatever the numbers of workers. */
  method TallAndBack(m: Matrix, workers: nat, workers': nat) returns (m': Matrix)
    requires |m| % SIZE == 0 && (forall r: nat :: r < |m| ==> |m[r]| == 64) && workers > 0 && workers' > 0
    ensures m' == m
  {
    var t := ConcurrentTransposeTall(m, workers);
    m' := ConcurrentTransposeWide(t, workers');
    TransposeTwice(m, t, m');
  }

  method WideAndBack(m: Matrix, workers: nat, workers': nat) returns (m': Matrix)
    requires |m| == SIZE && |m[0]| % 64 == 0 && forall r: nat :: r < |m| ==> |m[r]| == |m[0]|
    requires workers > 0 && workers' > 0
    ensures m' == m
  {
    var t := ConcurrentTransposeWide(m, workers);
    m' := ConcurrentTransposeTall(t, workers');
    if |t| > 0 {
      TransposeTwice(m, t, m');
    } else {
      assert forall r: nat :: r < SIZE ==> m'[r] == [] && m[r] == [];
    }
  }
}
