/** Stages 1 and 3 of the sender in pkg/kkrtpsi: the inputs, and the workers that encode them in
    batches, send the batches through a channel and have them written out. */
module KkrtSender {
  import opened Words
  import opened BitOps
  import opened CuckooTable
  import opened NaorPinkas
  import opened Oprf

  /** inputToOprfEncode: the three codes of an identifier and its three buckets. */
  datatype Input = Input(prc: seq<Bytes>, buckets: seq<nat>)

  /** What is sent for one identifier. */
  type Hashes = seq<nat>

  ghost predicate InputOk(input: Input, key: Key) {
    && |input.prc| == |input.buckets| == NHASH
    && (forall h: nat :: h < NHASH ==> |input.prc[h]| == LEN)
    && forall h: nat :: h < NHASH ==> input.buckets[h] < |key.rows|
  }

  /** The input for an identifier. */
  function InputOf(hash: Hashers, m: nat, code: Coder, id: Item): Input
    requires m > 0
  {
    Input([code(id, 0), code(id, 1), code(id, 2)],
          [Bucket(hash, m, id, 0), Bucket(hash, m, id, 1), Bucket(hash, m, id, 2)])
  }

  /** The encoding of an input under hash function h. */
  function EncodingOf(key: Key, input: Input, h: nat): Bytes
    requires InputOk(input, key) && KeyOk(key, |key.rows|) && h < NHASH
  {
    Encoded(input.prc[h], key.secret, key.rows[input.buckets[h]])
  }

  function HashesOf(hash: Hashers, key: Key, input: Input): (r: Hashes)
    requires InputOk(input, key) && KeyOk(key, |key.rows|)
    ensures |r| == NHASH
  {
    [hash(0, EncodingOf(key, input, 0)), hash(0, EncodingOf(key, input, 1)), hash(0, EncodingOf(key, input, 2))]
  }

  /** Stage 1: codes and buckets of all identifiers. */
  method Inputs(hash: Hashers, m: nat, code: Coder, ids: seq<Item>) returns (inputs: array<Input>)
    requires m > 0
    ensures fresh(inputs) && inputs.Length == |ids|
    ensures forall i: nat :: i < |ids| ==> inputs[i] == InputOf(hash, m, code, ids[i])
  {
    inputs := new Input[|ids|](_ => Input([], []));
    for i := 0 to |ids|
      invariant forall k: nat :: k < i ==> inputs[k] == InputOf(hash, m, code, ids[k])
    {
      var prc: seq<Bytes> := [];
      for h := 0 to NHASH
        invariant prc == [code(ids[i], 0), code(ids[i], 1), code(ids[i], 2)][..h]
      {
        prc := prc + [code(ids[i], h)];
      }
      inputs[i] := Input(prc, [Bucket(hash, m, ids[i], 0), Bucket(hash, m, ids[i], 1), Bucket(hash, m, ids[i], 2)]);
    }
  }

  /** encodeAndHash: the codes are overwritten by their encodings. */
  method EncodeAndHash(inputs: array<Input>, i: nat, hash: Hashers, key: Key, workers: nat) returns (hashes: Hashes)
    requires i < inputs.Length && InputOk(inputs[i], key) && KeyOk(key, |key.rows|) && workers > 0
    modifies inputs
    ensures hashes == HashesOf(hash, key, old(inputs[i]))
    ensures inputs[i].buckets == old(inputs[i].buckets)
    ensures |inputs[i].prc| == NHASH
    ensures forall h: nat, input: Input :: h < NHASH && input == old(inputs[i]) ==>
              inputs[i].prc[h] == EncodingOf(key, input, h)
    ensures forall k: nat :: k < inputs.Length && k != i ==> inputs[k] == old(inputs[k])
  {
    hide OnRows, Encoded;
    ghost var input := inputs[i];
    hashes := [];
    for h := 0 to NHASH
      invariant |hashes| == h && forall k: nat :: k < h ==> hashes[k] == hash(0, EncodingOf(key, input, k))
      invariant inputs[i].buckets == input.buckets && |inputs[i].prc| == NHASH
      invariant forall k: nat :: k < h ==> inputs[i].prc[k] == EncodingOf(key, input, k)
      invariant forall k: nat :: h <= k < NHASH ==> inputs[i].prc[k] == input.prc[k]
      invariant forall k: nat :: k < inputs.Length && k != i ==> inputs[k] == old(inputs[k])
    {
      var row, buffer := inputs[i].buckets[h], inputs[i].prc[h];
      var dst := new byte[|buffer|](j requires 0 <= j < |buffer| => buffer[j]);
      assert dst[..] == buffer;
      Encode(key, row, dst, workers);
      inputs[i] := inputs[i].(prc := inputs[i].prc[h := dst[..]]);
      hashes := hashes + [hash(0, dst[..])];
    }
  }

  // ----- shares of the workers

  const BATCH: nat := 2048

  /** The number of batches of each worker. */
  function Resp(n: nat, workers: nat): nat
    requires workers > 0
  {
    n / BATCH / workers
  }

  /** What the extra worker, number `workers`, encodes in one batch. */
  function Left(n: nat, workers: nat): nat
    requires workers > 0
  {
    RespFits(n, workers);
    n - Resp(n, workers) * workers * BATCH
  }

  lemma RespFits(n: nat, workers: nat)
    requires workers > 0
    ensures Resp(n, workers) * workers * BATCH <= n
  {
    var batches := n / BATCH;
    assert batches == batches / workers * workers + batches % workers;
  }

  function Count(n: nat, workers: nat, v: nat): nat
    requires workers > 0
  {
    if v < workers then Resp(n, workers) else if Left(n, workers) == 0 then 0 else 1
  }

  function Size(n: nat, workers: nat, v: nat): nat
    requires workers > 0
  {
    if v < workers then BATCH else Left(n, workers)
  }

  /** The first input of batch b of worker v. */
  function Start(n: nat, workers: nat, v: nat, b: nat): nat
    requires workers > 0
  {
    if v < workers then (v * Resp(n, workers) + b) * BATCH
    else if b == 0 then n - Left(n, workers) else n
  }

  /** Each batch starts where the one before ends, and each worker where the one before ends. */
  lemma Starts(n: nat, workers: nat, v: nat, b: nat)
    requires workers > 0 && v <= workers && b <= Count(n, workers, v)
    ensures b < Count(n, workers, v) ==>
              Size(n, workers, v) > 0 && Start(n, workers, v, b + 1) == Start(n, workers, v, b) + Size(n, workers, v)
    ensures v < workers ==> Start(n, workers, v + 1, 0) == Start(n, workers, v, Count(n, workers, v))
    ensures v == workers ==> Start(n, workers, v, Count(n, workers, v)) == n
    ensures v == 0 ==> Start(n, workers, v, 0) == 0
    ensures Start(n, workers, v, b) <= Start(n, workers, v, Count(n, workers, v)) <= n
  {
    var resp := Resp(n, workers);
    RespFits(n, workers);
    if v < workers {
      assert (v + 1) * resp == v * resp + resp;
      MulMonotone(v + 1, workers, resp);
      assert resp * workers == workers * resp && (v + 1) * resp == resp * (v + 1);
    }
  }

  /** The share of worker v ends before that of worker u starts. */
  lemma {:induction false} SharesApart(n: nat, workers: nat, v: nat, u: nat)
    requires workers > 0 && v < u <= workers
    ensures Start(n, workers, v, Count(n, workers, v)) <= Start(n, workers, u, 0)
    decreases u
  {
    hide Start, Count;
    Starts(n, workers, u - 1, 0);
    if v < u - 1 {
      SharesApart(n, workers, v, u - 1);
    }
  }

  // ----- conservation

  /** The parts of `goal` from from[v] to to[v]. */
  ghost function Rest<T>(goal: seq<T>, from: seq<nat>, to: seq<nat>): multiset<T>
    requires |from| == |to| && forall v: nat :: v < |to| ==> from[v] <= to[v] <= |goal|
  {
    if from == [] then multiset{}
    else
      var k: nat := |from| - 1;
      Rest(goal, from[..k], to[..k]) + multiset(goal[from[k]..to[k]])
  }

  lemma SwapLast<T>(a: multiset<T>, b: multiset<T>, c: multiset<T>)
    ensures (a + b) + c == (a + c) + b
  {
  }

  lemma RestLast<T>(goal: seq<T>, from: seq<nat>, to: seq<nat>)
    requires |from| == |to| > 0 && forall v: nat :: v < |to| ==> from[v] <= to[v] <= |goal|
    ensures var k: nat := |from| - 1;
      Rest(goal, from, to) == Rest(goal, from[..k], to[..k]) + multiset(goal[from[k]..to[k]])
  {
  }

  lemma {:induction false} RestAdvance<T>(goal: seq<T>, from: seq<nat>, to: seq<nat>, v: nat, x: nat)
    requires |from| == |to| && forall v: nat :: v < |to| ==> from[v] <= to[v] <= |goal|
    requires v < |to| && from[v] <= x <= to[v]
    ensures Rest(goal, from, to) == Rest(goal, from[v := x], to) + multiset(goal[from[v]..x])
  {
    hide Rest;
    var k: nat := |from| - 1;
    var from' := from[v := x];
    RestLast(goal, from, to);
    RestLast(goal, from', to);
    if v < k {
      RestAdvance(goal, from[..k], to[..k], v, x);
      assert from'[..k] == from[..k][v := x];
      SwapLast(Rest(goal, from'[..k], to[..k]), multiset(goal[from[v]..x]), multiset(goal[from[k]..to[k]]));
    } else {
      assert from'[..k] == from[..k];
      assert goal[from[k]..to[k]] == goal[from[k]..x] + goal[x..to[k]];
      SwapLast(Rest(goal, from[..k], to[..k]), multiset(goal[from[k]..x]), multiset(goal[x..to[k]]));
    }
  }

  /** Parts that follow each other make up the whole. */
  lemma {:induction false} RestOfChain<T>(goal: seq<T>, from: seq<nat>, to: seq<nat>)
    requires |from| == |to| > 0 && forall v: nat :: v < |to| ==> from[v] <= to[v] <= |goal|
    requires from[0] == 0 && forall v: nat :: v + 1 < |to| ==> from[v + 1] == to[v]
    ensures Rest(goal, from, to) == multiset(goal[..to[|to| - 1]])
  {
    var k: nat := |from| - 1;
    if k == 0 {
      assert Rest(goal, from[..k], to[..k]) == multiset{};
    } else {
      RestOfChain(goal, from[..k], to[..k]);
      assert goal[..to[k]] == goal[..from[k]] + goal[from[k]..to[k]];
    }
  }

  lemma {:induction false} RestOfNothing<T>(goal: seq<T>, from: seq<nat>, to: seq<nat>)
    requires |from| == |to| && forall v: nat :: v < |to| ==> from[v] == to[v] <= |goal|
    ensures Rest(goal, from, to) == multiset{}
  {
    if from != [] {
      var k: nat := |from| - 1;
      RestOfNothing(goal, from[..k], to[..k]);
    }
  }

  lemma {:induction false} RestSize<T>(goal: seq<T>, from: seq<nat>, to: seq<nat>, v: nat)
    requires |from| == |to| && forall v: nat :: v < |to| ==> from[v] <= to[v] <= |goal|
    requires v < |to| && from[v] < to[v]
    ensures |Rest(goal, from, to)| > 0
  {
    var k: nat := |from| - 1;
    if v < k {
      RestSize(goal, from[..k], to[..k], v);
    }
  }

  function Flatten<T>(queue: seq<seq<T>>): seq<T> {
    if queue == [] then [] else queue[0] + Flatten(queue[1..])
  }

  lemma {:induction false} FlattenSend<T>(queue: seq<seq<T>>, batch: seq<T>)
    ensures Flatten(queue + [batch]) == Flatten(queue) + batch
  {
    if queue == [] {
      assert Flatten([batch]) == batch + Flatten<T>([]);
    } else {
      assert (queue + [batch])[1..] == queue[1..] + [batch];
      FlattenSend(queue[1..], batch);
    }
  }
}
