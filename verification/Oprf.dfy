/** The oblivious pseudorandom function of internal/oprf/oprf.go: OT extension over the base
    transfers of NaorPinkas and the bit-matrix transposes. */
module Oprf {
  import opened Sequences
  import opened UintBits
  import opened Words
  import opened LittleEndian
  import opened Blocks
  import opened ConcurrentTranspose
  import opened BitOps
  import opened CuckooTable
  import opened NaorPinkas

  /** The number of base transfers, and the length in bytes of codes, secrets and seeds. */
  const COUNT: nat := 512
  const LEN: nat := 64

  /** Pad: the least multiple of `multiple` that is not below n. */
  function Pad(n: nat, multiple: nat): (r: nat)
    requires multiple > 0
    ensures r % multiple == 0 && n <= r < n + multiple
  {
    var p := n % multiple;
    PadMultiple(n, multiple);
    if p == 0 then n else n + (multiple - p)
  }

  lemma PadMultiple(n: nat, multiple: nat)
    requires multiple > 0
    ensures n % multiple != 0 ==> (n + (multiple - n % multiple)) % multiple == 0
  {
    var q, p := n / multiple, n % multiple;
    assert n == q * multiple + p;
    assert n + (multiple - p) == (q + 1) * multiple;
    DivModUnique(n + (multiple - p), multiple, q + 1, 0);
  }

  /** PadBitMap for columns of `COUNT` bits. */
  function PaddedLen(m: nat): (r: nat)
    ensures r % 64 == 0 && 8 * r == Pad(m, COUNT)
  {
    Pad(m, COUNT) / 8
  }

  /** PseudorandomGenerate: n bytes from a seed, given the stream of the generator. */
  function Generate(drbg: (Bytes, nat) -> Bytes, seed: Bytes, n: nat): (r: Bytes)
    requires DrbgOk(drbg)
    ensures |r| == n
  {
    if n < |seed| then seed[..n] else drbg(seed, n)
  }

  ghost predicate DrbgOk(drbg: (Bytes, nat) -> Bytes) {
    forall seed, n: nat :: |drbg(seed, n)| == n
  }

  /** A pair of random seeds, of which the sender of the OPRF learns one. */
  type SeedPair = (Bytes, Bytes)

  function ChosenSeed(pair: SeedPair, choice: bool): Bytes {
    if choice then pair.1 else pair.0
  }

  // ----- columns

  /** COUNT columns with n bytes each. */
  ghost predicate Columns(cols: Matrix, n: nat) {
    |cols| == COUNT && forall c: nat :: c < COUNT ==> |cols[c]| == n
  }

  /** oprfMask for one column of codes. */
  function ColumnMask(drbg: (Bytes, nat) -> Bytes, pair: SeedPair, code: Bytes): (r: Bytes)
    requires DrbgOk(drbg)
    ensures |r| == |code|
  {
    OnRows(DoubleXor, Generate(drbg, pair.1, |code|), Generate(drbg, pair.0, |code|), code)
  }

  /** One column of the keys: the mask is used when the secret bit is set. */
  function KeyColumn(drbg: (Bytes, nat) -> Bytes, seed: Bytes, choice: bool, mask: Bytes): (r: Bytes)
    requires DrbgOk(drbg)
    ensures |r| == |mask|
  {
    var column := Generate(drbg, seed, |mask|);
    if choice then OnRows(Xor, column, mask, mask) else column
  }

  /** The bits of a column of keys: those of the receiver's column, flipped where both the secret
      bit and the code bit are set. */
  lemma KeyColumnBit(drbg: (Bytes, nat) -> Bytes, pair: SeedPair, choice: bool, code: Bytes, j: nat)
    requires DrbgOk(drbg) && j < 8 * |code|
    ensures IsBitSet(KeyColumn(drbg, ChosenSeed(pair, choice), choice, ColumnMask(drbg, pair, code)), j)
            == (IsBitSet(Generate(drbg, pair.0, |code|), j) != (choice && IsBitSet(code, j)))
  {
    hide IsBitSet, OnRows;
    var n := |code|;
    OnRowsBit(DoubleXor, Generate(drbg, pair.1, n), Generate(drbg, pair.0, n), code, j);
    if choice {
      var mask := ColumnMask(drbg, pair, code);
      OnRowsBit(Xor, Generate(drbg, pair.1, n), mask, mask, j);
    }
  }

  /** A bit of a mask: both streams and the code. */
  lemma ColumnMaskBit(drbg: (Bytes, nat) -> Bytes, pair: SeedPair, code: Bytes, j: nat)
    requires DrbgOk(drbg) && j < 8 * |code| && |pair.0| <= |code| && |pair.1| <= |code|
    ensures |drbg(pair.0, |code|)| == |drbg(pair.1, |code|)| == |code|
    ensures IsBitSet(ColumnMask(drbg, pair, code), j)
            == ((IsBitSet(drbg(pair.0, |code|), j) != IsBitSet(drbg(pair.1, |code|), j)) != IsBitSet(code, j))
  {
    hide IsBitSet, OnRows;
    OnRowsBit(DoubleXor, drbg(pair.1, |code|), drbg(pair.0, |code|), code, j);
  }

  /** A bit of a key column: the stream of the seed, and the mask where the secret bit is set. */
  lemma KeyColumnIs(drbg: (Bytes, nat) -> Bytes, seed: Bytes, choice: bool, mask: Bytes, j: nat)
    requires DrbgOk(drbg) && j < 8 * |mask| && |seed| <= |mask|
    ensures |drbg(seed, |mask|)| == |mask|
    ensures IsBitSet(KeyColumn(drbg, seed, choice, mask), j)
            == (IsBitSet(drbg(seed, |mask|), j) != (choice && IsBitSet(mask, j)))
  {
    hide IsBitSet, OnRows;
    OnRowsBit(Xor, drbg(seed, |mask|), mask, mask, j);
  }

  // ----- rows

  /** The columns of an honest run with secret s. */
  ghost predicate ColumnsRelated(keys: Matrix, own: Matrix, codes: Matrix, s: Bytes, n: nat)
    requires Columns(keys, n) && Columns(own, n) && Columns(codes, n) && |s| == LEN
  {
    forall c: nat, j: nat :: c < COUNT && j < 8 * n ==>
      IsBitSet(keys[c], j) == (IsBitSet(own[c], j) != (IsBitSet(s, c) && IsBitSet(codes[c], j)))
  }

  /** The relation of the extension: row j of the keys is the receiver's row j, xored with the
      secret under the code of row j. */
  lemma RowRelation(keys: Matrix, own: Matrix, codes: Matrix, s: Bytes, n: nat,
                    keyRows: Matrix, ownRows: Matrix, codeRows: Matrix, j: nat, c: nat)
    requires Columns(keys, n) && Columns(own, n) && Columns(codes, n) && |s| == LEN
    requires ColumnsRelated(keys, own, codes, s, n)
    requires IsTranspose(keys, keyRows) && IsTranspose(own, ownRows) && IsTranspose(codeRows, codes)
    requires |keyRows| == |ownRows| == |codeRows| == 8 * n && j < 8 * n && c < COUNT
    ensures |keyRows[j]| == |ownRows[j]| == |codeRows[j]| == LEN
    ensures IsBitSet(keyRows[j], c) == (IsBitSet(ownRows[j], c) != (IsBitSet(s, c) && IsBitSet(codeRows[j], c)))
  {
    hide IsBitSet;
    assert IsBitSet(keyRows[j], c) == IsBitSet(keys[c], j);
    assert IsBitSet(ownRows[j], c) == IsBitSet(own[c], j);
    assert IsBitSet(codes[c], j) == IsBitSet(codeRows[j], c);
  }

  /** Encode: `code & secret ^ oprfKeys[row]` */
  function Encoded(code: Bytes, secret: Bytes, keyRow: Bytes): Bytes
    requires |code| == |secret| == |keyRow|
  {
    OnRows(AndXor, code, secret, keyRow)
  }

  /** Encoding the code of row j with the key of row j gives the receiver's row j. */
  lemma EncodeIsOwnRow(keys: Matrix, own: Matrix, codes: Matrix, s: Bytes, n: nat,
                       keyRows: Matrix, ownRows: Matrix, codeRows: Matrix, j: nat)
    requires Columns(keys, n) && Columns(own, n) && Columns(codes, n) && |s| == LEN
    requires ColumnsRelated(keys, own, codes, s, n)
    requires IsTranspose(keys, keyRows) && IsTranspose(own, ownRows) && IsTranspose(codeRows, codes)
    requires |keyRows| == |ownRows| == |codeRows| == 8 * n && j < 8 * n
    ensures |keyRows[j]| == |ownRows[j]| == |codeRows[j]| == LEN
    ensures Encoded(codeRows[j], s, keyRows[j]) == ownRows[j]
  {
    hide IsBitSet, OnRows, IsTranspose, ColumnsRelated, Columns;
    RowRelation(keys, own, codes, s, n, keyRows, ownRows, codeRows, j, 0);
    forall c: nat | c < COUNT
      ensures IsBitSet(Encoded(codeRows[j], s, keyRows[j]), c) == IsBitSet(ownRows[j], c)
    {
      RowRelation(keys, own, codes, s, n, keyRows, ownRows, codeRows, j, c);
      OnRowsBit(AndXor, codeRows[j], s, keyRows[j], c);
    }
    RowFromBits(Encoded(codeRows[j], s, keyRows[j]), ownRows[j]);
  }

  // ----- Receive

  type Coder = (Item, nat) -> Bytes

  ghost predicate CoderOk(code: Coder) {
    forall item, h :: |code(item, h)| == LEN
  }

  /** The code of the item in bucket b; the keeper's code for a free bucket. */
  ghost function CodeOf(table: Cuckoo, code: Coder, b: nat): Bytes
    requires table.Valid() && b < table.lookup.Length
    reads table, table.items, table.hashes, table.lookup
  {
    var idx := table.lookup[b];
    code(table.items[idx], table.hashes[idx])
  }

  /** Bucket b is in the share of a worker that has not come to it. */
  predicate Ahead(offsets: seq<nat>, share: nat, b: nat) {
    share > 0 && b / share < |offsets| && offsets[b / share] <= b % share
  }

  /** The workers' slots, but those still ahead, are as they should be. */
  ghost predicate SharesFilled<T>(goal: seq<T>, slots: seq<T>, offsets: seq<nat>, share: nat)
    requires |slots| == |goal|
  {
    forall b: nat {:trigger slots[b]} :: b < |slots| && b < share * |offsets| ==>
      Ahead(offsets, share, b) || slots[b] == goal[b]
  }

  /** Where worker j goes next. */
  lemma NextBucket(m: nat, workers: nat, j: nat, offset: nat)
    requires workers > 0 && j < workers && offset < m / workers
    ensures var b := (m / workers) * j + offset;
      b < m && b / (m / workers) == j && b % (m / workers) == offset
  {
    var share := m / workers;
    assert m == share * workers + m % workers;
    MulMonotone(j + 1, workers, share);
    assert share * (j + 1) == share * j + share;
    assert share * j + offset == j * share + offset;
    DivModUnique(share * j + offset, share, j, offset);
  }

  /** When worker j has done bucket b, the others ahead are still ahead. */
  lemma StillAhead(offsets: seq<nat>, share: nat, j: nat, b: nat, k: nat)
    requires share > 0 && j < |offsets| && b / share == j && b % share == offsets[j]
    requires Ahead(offsets, share, k) && k != b
    ensures Ahead(offsets[j := offsets[j] + 1], share, k)
  {
    var q, r := k / share, k % share;
    assert k == q * share + r && b == j * share + offsets[j];
    if q == j {
      assert r != offsets[j];
    }
  }

  lemma ShareStep<T>(goal: seq<T>, slots: seq<T>, offsets: seq<nat>, share: nat, j: nat, b: nat)
    requires |slots| == |goal| && SharesFilled(goal, slots, offsets, share)
    requires share > 0 && j < |offsets| && b < |slots| && b / share == j && b % share == offsets[j]
    ensures SharesFilled(goal, slots[b := goal[b]], offsets[j := offsets[j] + 1], share)
  {
    hide Ahead;
    var slots', offsets' := slots[b := goal[b]], offsets[j := offsets[j] + 1];
    forall k: nat | k < |slots'| && k < share * |offsets'|
      ensures Ahead(offsets', share, k) || slots'[k] == goal[k]
    {
      assert Ahead(offsets, share, k) || slots[k] == goal[k];
      if k != b && slots[k] != goal[k] {
        StillAhead(offsets, share, j, b, k);
      }
    }
  }

  lemma SharesStart<T>(goal: seq<T>, slots: seq<T>, offsets: seq<nat>, share: nat)
    requires |slots| == |goal| && forall j: nat :: j < |offsets| ==> offsets[j] == 0
    ensures SharesFilled(goal, slots, offsets, share)
  {
    forall b: nat | b < |slots| && b < share * |offsets|
      ensures Ahead(offsets, share, b)
    {
      QuotientBelow(b, share, |offsets|);
    }
  }

  lemma SharesEnd<T>(goal: seq<T>, slots: seq<T>, offsets: seq<nat>, share: nat)
    requires |slots| == |goal| && SharesFilled(goal, slots, offsets, share)
    requires forall j: nat :: j < |offsets| ==> offsets[j] >= share
    ensures forall b: nat :: b < |slots| && b < share * |offsets| ==> slots[b] == goal[b]
  {
    forall b: nat | b < |slots| && b < share * |offsets|
      ensures slots[b] == goal[b]
    {
      assert share > 0;
      assert Ahead(offsets, share, b) || slots[b] == goal[b];
    }
  }

  ghost function BucketsLeft(offsets: seq<nat>, share: nat): seq<nat> {
    seq(|offsets|, j requires 0 <= j < |offsets| => if offsets[j] < share then share - offsets[j] else 0)
  }

  /** The codes of all buckets, in order. */
  ghost function AllCodes(table: Cuckoo, code: Coder): (codes: seq<Bytes>)
    requires table.Valid()
    reads table, table.items, table.hashes, table.lookup
    ensures |codes| == table.lookup.Length
    ensures forall b: nat :: b < |codes| ==> codes[b] == CodeOf(table, code, b)
  {
    seq(table.lookup.Length, b requires 0 <= b < table.lookup.Length && table.Valid()
                               reads table, table.items, table.hashes, table.lookup => CodeOf(table, code, b))
  }

  /** The code of one bucket is written into its slot. */
  method FillSlot(table: Cuckoo, code: Coder, slots: array<Bytes>, b: nat)
    requires table.Valid() && b < slots.Length == table.lookup.Length && slots != table.items
    modifies slots
    ensures slots[..] == old(slots[..])[b := AllCodes(table, code)[b]]
  {
    hide Placed, Distinct, Bucket;
    assert table.lookup[..][b] <= table.inserted by {
      BucketInRange(table, b);
    }
    var idx := table.GetBucket(b);
    var item, hIdx := table.GetItemWithHash(idx);
    assert code(item, hIdx) == AllCodes(table, code)[b];
    slots[b] := code(item, hIdx);
  }

  lemma BucketInRange(table: Cuckoo, b: nat)
    requires table.Valid() && b < table.lookup.Length
    ensures table.lookup[b] <= table.inserted
  {
    assert table.lookup[..][b] == table.lookup[b];
  }

  /** The codes of the workers' shares, the workers taking turns in any order. */
  method FillShares(table: Cuckoo, code: Coder, slots: array<Bytes>, workers: nat)
    requires table.Valid() && workers > 0 && slots.Length == table.lookup.Length && slots != table.items
    modifies slots
    ensures table.Valid()
    ensures forall b: nat :: b < slots.Length && b < (slots.Length / workers) * workers ==>
              slots[b] == AllCodes(table, code)[b]
  {
    hide CodeOf, AllCodes, Sum, Cuckoo.Valid;
    ghost var goal := AllCodes(table, code);
    var share := slots.Length / workers;
    var offsets: seq<nat> := seq(workers, _ => 0);
    SharesStart(goal, slots[..], offsets, share);
    while exists j: nat :: j < workers && offsets[j] < share
      invariant |offsets| == workers && SharesFilled(goal, slots[..], offsets, share)
      decreases Sum(BucketsLeft(offsets, share))
    {
      hide SharesFilled;
      var j: nat :| j < workers && offsets[j] < share;
      NextBucket(slots.Length, workers, j, offsets[j]);
      var b := share * j + offsets[j];
      ShareStep(goal, slots[..], offsets, share, j, b);
      ghost var left := BucketsLeft(offsets, share);
      FillSlot(table, code, slots, b);
      offsets := offsets[j := offsets[j] + 1];
      SumUpdate(left, BucketsLeft(offsets, share), j);
    }
    SharesEnd(goal, slots[..], offsets, share);
  }

  /** The codes of all buckets: the workers fill their shares, and the rest is filled afterwards. */
  method CodesOfBuckets(table: Cuckoo, code: Coder, workers: nat) returns (rows: Matrix)
    requires table.Valid() && workers > 0
    ensures |rows| == table.lookup.Length
    ensures forall b: nat :: b < |rows| ==> rows[b] == CodeOf(table, code, b)
  {
    hide CodeOf, Cuckoo.Valid;
    var m := table.lookup.Length;
    var slots := new Bytes[m](_ => []);
    FillShares(table, code, slots, workers);
    ghost var goal := AllCodes(table, code);
    var done := (m / workers) * workers;
    for b := done to m
      invariant slots[..b] == goal[..b]
    {
      FillSlot(table, code, slots, b);
    }
    assert slots[..] == slots[..m] == goal[..m] == goal;
    rows := slots[..];
  }

  /** Rows of zeros up to a multiple of COUNT. */
  method PadRows(rows: Matrix) returns (padded: Matrix)
    requires forall r: nat :: r < |rows| ==> |rows[r]| == LEN
    ensures |padded| == Pad(|rows|, COUNT) && padded[..|rows|] == rows
    ensures forall r: nat :: r < |padded| ==> |padded[r]| == LEN
    ensures forall r: nat, j: nat :: |rows| <= r < |padded| && j < LEN ==> padded[r][j] == 0
  {
    padded := rows;
    while |padded| < Pad(|rows|, COUNT)
      invariant |rows| <= |padded| <= Pad(|rows|, COUNT) && padded[..|rows|] == rows
      invariant forall r: nat :: r < |padded| ==> |padded[r]| == LEN
      invariant forall r: nat, j: nat :: |rows| <= r < |padded| && j < LEN ==> padded[r][j] == 0
    {
      padded := padded + [seq(LEN, _ => 0)];
    }
  }

  /** The receiver's columns and the masks it sends. */
  method OwnColumns(codes: Matrix, pairs: seq<SeedPair>, drbg: (Bytes, nat) -> Bytes, n: nat, workers: nat)
    returns (own: Matrix, masks: seq<Bytes>)
    requires Columns(codes, n) && |pairs| == COUNT && DrbgOk(drbg) && workers > 0
    ensures Columns(own, n) && Columns(masks, n)
    ensures forall c: nat :: c < COUNT ==>
              own[c] == Generate(drbg, pairs[c].0, n) && masks[c] == ColumnMask(drbg, pairs[c], codes[c])
    ensures forall c: nat :: c < COUNT ==>
              own[c] == if n < |pairs[c].0| then pairs[c].0[..n] else drbg(pairs[c].0, n)
    ensures forall c: nat, j: nat :: c < COUNT && j < 8 * n && |pairs[c].0| <= n && |pairs[c].1| <= n ==>
              && |drbg(pairs[c].0, n)| == |drbg(pairs[c].1, n)| == n
              && IsBitSet(masks[c], j)
                 == ((IsBitSet(drbg(pairs[c].0, n), j) != IsBitSet(drbg(pairs[c].1, n), j)) != IsBitSet(codes[c], j))
  {
    own, masks := [], [];
    for c := 0 to COUNT
      invariant |own| == |masks| == c
      invariant forall k: nat :: k < c ==> |own[k]| == |masks[k]| == n
      invariant forall k: nat :: k < c ==>
                  own[k] == Generate(drbg, pairs[k].0, n) && masks[k] == ColumnMask(drbg, pairs[k], codes[k])
    {
      hide OnRows;
      var column := Generate(drbg, pairs[c].0, n);
      var stream := Generate(drbg, pairs[c].1, n);
      var mask := new byte[n](i requires 0 <= i < n => stream[i]);
      assert mask[..] == stream;
      ConcurrentOp(DoubleXor, mask, column, codes[c], workers);
      own, masks := own + [column], masks + [mask[..]];
    }
    forall c: nat, j: nat | c < COUNT && j < 8 * n && |pairs[c].0| <= n && |pairs[c].1| <= n
      ensures |drbg(pairs[c].0, n)| == |drbg(pairs[c].1, n)| == n
      ensures IsBitSet(masks[c], j)
              == ((IsBitSet(drbg(pairs[c].0, n), j) != IsBitSet(drbg(pairs[c].1, n), j)) != IsBitSet(codes[c], j))
    {
      ColumnMaskBit(drbg, pairs[c], codes[c], j);
    }
  }

  // ----- Send

  /** The key columns, from the seeds of the base transfers and the masks received. */
  method KeyColumns(s: Bytes, seeds: seq<Bytes>, masks: seq<Bytes>, drbg: (Bytes, nat) -> Bytes, n: nat, workers: nat)
    returns (keys: Matrix)
    requires |s| == LEN && |seeds| == COUNT && Columns(masks, n) && DrbgOk(drbg) && workers > 0
    ensures Columns(keys, n)
    ensures forall c: nat :: c < COUNT ==> keys[c] == KeyColumn(drbg, seeds[c], IsBitSet(s, c), masks[c])
    ensures forall c: nat, j: nat :: c < COUNT && j < 8 * n && |seeds[c]| <= n ==>
              && |drbg(seeds[c], n)| == n
              && IsBitSet(keys[c], j) == (IsBitSet(drbg(seeds[c], n), j) != (IsBitSet(s, c) && IsBitSet(masks[c], j)))
  {
    keys := [];
    for c := 0 to COUNT
      invariant |keys| == c
      invariant forall k: nat :: k < c ==>
                  |keys[k]| == n && keys[k] == KeyColumn(drbg, seeds[k], IsBitSet(s, k), masks[k])
    {
      hide OnRows, IsBitSet;
      var stream := Generate(drbg, seeds[c], n);
      var column := new byte[n](i requires 0 <= i < n => stream[i]);
      assert column[..] == stream;
      if IsBitSet(s, c) {
        ConcurrentOp(Xor, column, masks[c], masks[c], workers);
      }
      keys := keys + [column[..]];
    }
    forall c: nat, j: nat | c < COUNT && j < 8 * n && |seeds[c]| <= n
      ensures |drbg(seeds[c], n)| == n
      ensures IsBitSet(keys[c], j) == (IsBitSet(drbg(seeds[c], n), j) != (IsBitSet(s, c) && IsBitSet(masks[c], j)))
    {
      KeyColumnIs(drbg, seeds[c], IsBitSet(s, c), masks[c], j);
    }
  }

  datatype Key = Key(secret: Bytes, rows: Matrix)

  ghost predicate KeyOk(k: Key, m: nat) {
    |k.secret| == LEN && |k.rows| == m && forall j: nat :: j < m ==> |k.rows[j]| == LEN
  }

  /** Key.Encode overwrites its argument. */
  method Encode(k: Key, row: nat, dst: array<byte>, workers: nat)
    requires row < |k.rows| && dst.Length == |k.secret| == |k.rows[row]| && workers > 0
    modifies dst
    ensures dst[..] == Encoded(old(dst[..]), k.secret, k.rows[row])
    ensures forall j: nat :: j < 8 * dst.Length ==>
              IsBitSet(dst[..], j) == ((IsBitSet(old(dst[..]), j) && IsBitSet(k.secret, j)) != IsBitSet(k.rows[row], j))
  {
    hide OnRows, IsBitSet;
    ghost var before := dst[..];
    ConcurrentOp(AndXor, dst, k.secret, k.rows[row], workers);
    forall j: nat | j < 8 * dst.Length
      ensures IsBitSet(dst[..], j) == ((IsBitSet(before, j) && IsBitSet(k.secret, j)) != IsBitSet(k.rows[row], j))
    {
      OnRowsBit(AndXor, before, k.secret, k.rows[row], j);
    }
  }

  // ----- an honest run of both parties

  lemma AllColumnsRelated(drbg: (Bytes, nat) -> Bytes, pairs: seq<SeedPair>, s: Bytes, seeds: seq<Bytes>, n: nat,
                          codes: Matrix, own: Matrix, masks: seq<Bytes>, keys: Matrix)
    requires DrbgOk(drbg) && |pairs| == |seeds| == COUNT && |s| == LEN
    requires Columns(codes, n) && Columns(own, n) && Columns(masks, n) && Columns(keys, n)
    requires forall c: nat :: c < COUNT ==> seeds[c] == ChosenSeed(pairs[c], IsBitSet(s, c))
    requires forall c: nat :: c < COUNT ==>
               own[c] == Generate(drbg, pairs[c].0, n) && masks[c] == ColumnMask(drbg, pairs[c], codes[c])
    requires forall c: nat :: c < COUNT ==> keys[c] == KeyColumn(drbg, seeds[c], IsBitSet(s, c), masks[c])
    ensures ColumnsRelated(keys, own, codes, s, n)
  {
    hide IsBitSet, KeyColumn, ColumnMask, Generate;
    forall c: nat, j: nat | c < COUNT && j < 8 * n
      ensures IsBitSet(keys[c], j) == (IsBitSet(own[c], j) != (IsBitSet(s, c) && IsBitSet(codes[c], j)))
    {
      KeyColumnBit(drbg, pairs[c], IsBitSet(s, c), codes[c], j);
    }
  }

  /** The columns of both parties, once the receiver has its codes. */
  method ExchangeColumns<P(!new)>(c: Suite<P>, secretA: nat, secretR: nat, secrets: seq<nat>, s: Bytes,
                                    pairs: seq<SeedPair>,
                                  drbg: (Bytes, nat) -> Bytes, codes: Matrix, n: nat, workers: nat)
    returns (keys: Matrix, own: Matrix)
    requires SuiteOk(c) && DrbgOk(drbg) && |s| == LEN && |pairs| == |secrets| == COUNT && Columns(codes, n)
    requires workers > 0
    ensures Columns(keys, n) && Columns(own, n) && ColumnsRelated(keys, own, codes, s, n)
    ensures forall c: nat :: c < COUNT && |pairs[c].0| <= n ==> own[c] == drbg(pairs[c].0, n)
  {
    hide SuiteOk, IsBitSet, KeyColumn, ColumnMask, Generate, ColumnsRelated;
    var ot, _, _ := NaorPinkas.Run(c, COUNT, COUNT, secretA, secretR, pairs, s, secrets);
    var seeds := ot.messages;
    var masks;
    own, masks := OwnColumns(codes, pairs, drbg, n, workers);
    keys := KeyColumns(s, seeds, masks, drbg, n, workers);
    AllColumnsRelated(drbg, pairs, s, seeds, n, codes, own, masks, keys);
  }

  /** For every bucket, encoding its code with the key of its row gives the receiver's row. */
  ghost predicate EncodesTo(table: Cuckoo, code: Coder, key: Key, own: Matrix)
    requires table.Valid()
    reads table, table.items, table.hashes, table.lookup
  {
    && KeyOk(key, table.lookup.Length)
    && |own| == table.lookup.Length
    && forall b: nat :: b < |own| ==>
         |CodeOf(table, code, b)| == LEN && Encoded(CodeOf(table, code, b), key.secret, key.rows[b]) == own[b]
  }

  /** Bit c of the receiver's row b is bit b of the stream of its first seed for column c; the sender's
      is the same, flipped where both its secret and the code of the bucket have the bit. */
  ghost predicate StreamsGive(table: Cuckoo, code: Coder, key: Key, own: Matrix, m: nat, pairs: seq<SeedPair>,
                              drbg: (Bytes, nat) -> Bytes, c: nat, b: nat)
    requires table.Valid() && CoderOk(code) && DrbgOk(drbg) && |pairs| == COUNT && c < COUNT
    requires b < m == table.lookup.Length && KeyOk(key, m) && |own| == m && |own[b]| == LEN
    reads table, table.items, table.hashes, table.lookup
  {
    var stream := drbg(pairs[c].0, PaddedLen(m));
    var idx := table.lookup[b];
    && IsBitSet(own[b], c) == IsBitSet(stream, b)
    && IsBitSet(key.rows[b], c)
       == (IsBitSet(stream, b) != (IsBitSet(key.secret, c) && IsBitSet(code(table.items[idx], table.hashes[idx]), c)))
  }

  /** Row b of both parties for a code: encoding gives the receiver's row, and the bits come from the
      streams. */
  ghost predicate RowsRight(code: Bytes, s: Bytes, keyRow: Bytes, ownRow: Bytes, b: nat, n: nat, pairs: seq<SeedPair>,
                            drbg: (Bytes, nat) -> Bytes)
    requires DrbgOk(drbg) && b < 8 * n && |pairs| == COUNT
  {
    && |code| == |s| == |keyRow| == |ownRow| == LEN
    && Encoded(code, s, keyRow) == ownRow
    && forall c: nat :: c < COUNT && |pairs[c].0| <= n ==>
         RowBit(code, s, keyRow, ownRow, b, c, drbg(pairs[c].0, n))
  }

  ghost predicate RowBit(code: Bytes, s: Bytes, keyRow: Bytes, ownRow: Bytes, b: nat, c: nat, stream: Bytes)
    requires |code| == |s| == |keyRow| == |ownRow| == LEN && c < COUNT && b < 8 * |stream|
  {
    && IsBitSet(ownRow, c) == IsBitSet(stream, b)
    && IsBitSet(keyRow, c) == (IsBitSet(stream, b) != (IsBitSet(s, c) && IsBitSet(code, c)))
  }

  lemma RowsAreRight(keys: Matrix, own: Matrix, codes: Matrix, s: Bytes, n: nat, keyRows: Matrix, ownRows: Matrix,
                     codeRows: Matrix, b: nat, pairs: seq<SeedPair>, drbg: (Bytes, nat) -> Bytes)
    requires Columns(keys, n) && Columns(own, n) && Columns(codes, n) && |s| == LEN && |pairs| == COUNT && DrbgOk(drbg)
    requires ColumnsRelated(keys, own, codes, s, n)
    requires IsTranspose(keys, keyRows) && IsTranspose(own, ownRows) && IsTranspose(codeRows, codes)
    requires |keyRows| == |ownRows| == |codeRows| == 8 * n && b < 8 * n
    requires forall c: nat :: c < COUNT && |pairs[c].0| <= n ==> own[c] == drbg(pairs[c].0, n)
    ensures RowsRight(codeRows[b], s, keyRows[b], ownRows[b], b, n, pairs, drbg)
  {
    hide IsBitSet, Encoded, ColumnsRelated, IsTranspose;
    EncodeIsOwnRow(keys, own, codes, s, n, keyRows, ownRows, codeRows, b);
    forall c: nat | c < COUNT && |pairs[c].0| <= n
      ensures RowBit(codeRows[b], s, keyRows[b], ownRows[b], b, c, drbg(pairs[c].0, n))
    {
      RowRelation(keys, own, codes, s, n, keyRows, ownRows, codeRows, b, c);
      TransposedBit(own, ownRows, b, c);
    }
  }

  /** The rows of both parties for the codes of the receiver's buckets. */
  method ExchangeRows<P(!new)>(rows: Matrix, c: Suite<P>, secretA: nat, secretR: nat, secrets: seq<nat>, s: Bytes,
                               pairs: seq<SeedPair>, drbg: (Bytes, nat) -> Bytes, workers: nat)
    returns (keyRows: Matrix, ownRows: Matrix)
    requires SuiteOk(c) && DrbgOk(drbg) && |s| == LEN && |pairs| == |secrets| == COUNT && workers > 0
    requires forall b: nat :: b < |rows| ==> |rows[b]| == LEN
    ensures |keyRows| == |ownRows| == |rows|
    ensures forall b: nat :: b < |rows| ==>
              RowsRight(rows[b], s, keyRows[b], ownRows[b], b, PaddedLen(|rows|), pairs, drbg)
  {
    hide SuiteOk, DrbgOk, IsBitSet, Encoded, ColumnsRelated, IsTranspose, RowsRight;
    var n := PaddedLen(|rows|);
    var codeRows := PadRows(rows);
    var codes := ConcurrentTransposeTall(codeRows, workers);
    TransposeColumns(codeRows, codes, n);
    var keys, own := ExchangeColumns(c, secretA, secretR, secrets, s, pairs, drbg, codes, n, workers);
    var allKeyRows := ConcurrentTransposeWide(keys, workers);
    var allOwnRows := ConcurrentTransposeWide(own, workers);
    keyRows, ownRows := allKeyRows[..|rows|], allOwnRows[..|rows|];
    forall b: nat | b < |rows|
      ensures RowsRight(rows[b], s, keyRows[b], ownRows[b], b, n, pairs, drbg)
    {
      assert codeRows[b] == rows[b];
      RowsAreRight(keys, own, codes, s, n, allKeyRows, allOwnRows, codeRows, b, pairs, drbg);
    }
  }

  datatype Extension = Done(key: Key, own: Matrix) | CountMismatch

  /** Send and Receive for m buckets: encoding the code of bucket b with the key of row b gives
      the receiver's row b, and the rows of both come from the streams of the seeds. */
  method Run<P(!new)>(table: Cuckoo, m: nat, code: Coder, c: Suite<P>, secretA: nat, secretR: nat, secrets: seq<nat>,
                      s: Bytes, pairs: seq<SeedPair>, drbg: (Bytes, nat) -> Bytes, workers: nat)
    returns (r: Extension)
    requires table.Valid() && CoderOk(code) && SuiteOk(c) && DrbgOk(drbg)
    requires |s| == LEN && |pairs| == |secrets| == COUNT && workers > 0
    ensures r.Done? <==> m == table.lookup.Length
    ensures r.Done? ==> KeyOk(r.key, m) && r.key.secret == s && |r.own| == m
    ensures r.Done? ==> EncodesTo(table, code, r.key, r.own)
    ensures r.Done? ==> forall b: nat :: b < m ==> |r.own[b]| == LEN
    ensures r.Done? && (forall c: nat :: c < COUNT ==> |pairs[c].0| == LEN) ==>
              forall b: nat, c: nat :: b < m && c < COUNT ==>
                StreamsGive(table, code, r.key, r.own, m, pairs, drbg, c, b)
  {
    if table.lookup.Length != m {
      return CountMismatch;
    }
    hide SuiteOk, CodeOf, RowsRight, Cuckoo.Valid, StreamsGive;
    var rows := CodesOfBuckets(table, code, workers);
    forall b: nat | b < m
      ensures |rows[b]| == LEN
    {
      CodeLength(table, code, b);
    }
    var keyRows, ownRows := ExchangeRows(rows, c, secretA, secretR, secrets, s, pairs, drbg, workers);
    r := Done(Key(s, keyRows), ownRows);
    RowsOfTable(table, m, code, rows, keyRows, ownRows, s, pairs, drbg);
  }

  /** The rows for the codes of the table's buckets. */
  lemma RowsOfTable(table: Cuckoo, m: nat, code: Coder, rows: Matrix, keyRows: Matrix, ownRows: Matrix, s: Bytes,
                    pairs: seq<SeedPair>, drbg: (Bytes, nat) -> Bytes)
    requires table.Valid() && CoderOk(code) && DrbgOk(drbg) && |pairs| == COUNT && |s| == LEN
    requires |keyRows| == |ownRows| == |rows| == m == table.lookup.Length
    requires forall b: nat :: b < m ==> rows[b] == CodeOf(table, code, b)
    requires forall b: nat :: b < m ==> RowsRight(rows[b], s, keyRows[b], ownRows[b], b, PaddedLen(m), pairs, drbg)
    ensures KeyOk(Key(s, keyRows), m) && forall b: nat :: b < m ==> |ownRows[b]| == LEN
    ensures EncodesTo(table, code, Key(s, keyRows), ownRows)
    ensures (forall c: nat :: c < COUNT ==> |pairs[c].0| == LEN) ==>
              forall b: nat, c: nat :: b < m && c < COUNT ==>
                StreamsGive(table, code, Key(s, keyRows), ownRows, m, pairs, drbg, c, b)
  {
    hide Encoded, IsBitSet, CodeOf, RowBit, Cuckoo.Valid;
    assert forall b: nat :: b < m ==> |keyRows[b]| == |ownRows[b]| == LEN;
    if forall c: nat :: c < COUNT ==> |pairs[c].0| == LEN {
      assert PaddedLen(m) >= LEN by {
        AtLeastOneBlock(table, m);
      }
      forall b: nat, c: nat | b < m && c < COUNT
        ensures StreamsGive(table, code, Key(s, keyRows), ownRows, m, pairs, drbg, c, b)
      {
        StreamsOfRow(table, m, code, rows, keyRows, ownRows, s, pairs, drbg, b, c);
      }
    }
  }

  lemma AtLeastOneBlock(table: Cuckoo, m: nat)
    requires table.Valid() && m == table.lookup.Length
    ensures PaddedLen(m) >= LEN
  {
    hide Placed, Distinct;
  }

  lemma StreamsOfRow(table: Cuckoo, m: nat, code: Coder, rows: Matrix, keyRows: Matrix, ownRows: Matrix, s: Bytes,
                     pairs: seq<SeedPair>, drbg: (Bytes, nat) -> Bytes, b: nat, c: nat)
    requires table.Valid() && CoderOk(code) && DrbgOk(drbg) && |pairs| == COUNT && |s| == LEN
    requires |keyRows| == |ownRows| == |rows| == m == table.lookup.Length && b < m && c < COUNT
    requires KeyOk(Key(s, keyRows), m) && rows[b] == CodeOf(table, code, b) && |pairs[c].0| <= PaddedLen(m)
    requires RowsRight(rows[b], s, keyRows[b], ownRows[b], b, PaddedLen(m), pairs, drbg)
    ensures StreamsGive(table, code, Key(s, keyRows), ownRows, m, pairs, drbg, c, b)
  {
    hide Encoded, IsBitSet, CodeOf;
    CodeOfIs(table, code, b);
    assert RowBit(rows[b], s, keyRows[b], ownRows[b], b, c, drbg(pairs[c].0, PaddedLen(m)));
  }

  lemma TransposedBit(m: Matrix, t: Matrix, b: nat, c: nat)
    requires IsTranspose(m, t) && c < |m| && b < |t|
    ensures b < 8 * |m[c]| && c < 8 * |t[b]| && IsBitSet(t[b], c) == IsBitSet(m[c], b)
  {
    hide IsBitSet;
  }

  lemma CodeOfIs(table: Cuckoo, code: Coder, b: nat)
    requires table.Valid() && b < table.lookup.Length
    ensures var idx := table.lookup[b];
      && idx < table.items.Length == table.hashes.Length
      && CodeOf(table, code, b) == code(table.items[idx], table.hashes[idx])
  {
    BucketInRange(table, b);
  }

  lemma CodeLength(table: Cuckoo, code: Coder, b: nat)
    requires table.Valid() && b < table.lookup.Length && CoderOk(code)
    ensures |CodeOf(table, code, b)| == LEN
  {
  }

  lemma TransposeColumns(m: Matrix, t: Matrix, n: nat)
    requires IsTranspose(m, t) && |t| == COUNT && |m| == 8 * n
    ensures Columns(t, n)
  {
    hide IsBitSet;
  }
}
