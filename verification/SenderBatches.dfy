/** Stage 3 of the sender in pkg/kkrtpsi: workers that encode batches of the inputs and send them
    through a channel of bounded capacity, and the writer that empties and closes it. */
module SenderBatches {
  import opened Sequences
  import opened CuckooTable
  import opened Oprf
  import opened KkrtSender

  /** A worker at batch `batch` with the part of it that is encoded. */
  datatype Worker = Worker(batch: nat, filled: seq<Hashes>)

  datatype Writer = Starting | Ranging | Exited

  /** The input is still to be encoded, to h. */
  ghost predicate Awaiting(hash: Hashers, key: Key, input: Input, h: Hashes)
    requires KeyOk(key, |key.rows|)
  {
    InputOk(input, key) && HashesOf(hash, key, input) == h
  }

  ghost function End(n: nat, threads: nat, v: nat): nat
    requires threads > 0
  {
    Start(n, threads, v, Count(n, threads, v))
  }

  ghost predicate WorkerOk(hash: Hashers, key: Key, goal: seq<Hashes>, inputs: seq<Input>, threads: nat, v: nat,
                           w: Worker)
    requires KeyOk(key, |key.rows|) && |inputs| == |goal| && threads > 0
  {
    var n := |goal|;
    var next := Start(n, threads, v, w.batch) + |w.filled|;
    && w.batch <= Count(n, threads, v)
    && |w.filled| <= Size(n, threads, v)
    && (w.batch == Count(n, threads, v) ==> w.filled == [])
    && next <= End(n, threads, v) <= n
    && w.filled == goal[Start(n, threads, v, w.batch)..next]
    && forall i: nat :: next <= i < End(n, threads, v) ==> Awaiting(hash, key, inputs[i], goal[i])
  }

  // ----- what is not sent yet

  ghost predicate BatchesOk(n: nat, threads: nat, ws: seq<Worker>)
    requires threads > 0
  {
    |ws| == threads + 1 && forall v: nat :: v < |ws| ==> ws[v].batch <= Count(n, threads, v)
  }

  ghost function Froms(n: nat, threads: nat, ws: seq<Worker>): seq<nat>
    requires threads > 0
  {
    seq(|ws|, v requires 0 <= v < |ws| => Start(n, threads, v, ws[v].batch))
  }

  ghost function Ends(n: nat, threads: nat): seq<nat>
    requires threads > 0
  {
    seq(threads + 1, v requires 0 <= v => End(n, threads, v))
  }

  lemma BatchesInside(n: nat, threads: nat, ws: seq<Worker>)
    requires threads > 0 && BatchesOk(n, threads, ws)
    ensures forall v: nat :: v <= threads ==> Froms(n, threads, ws)[v] <= Ends(n, threads)[v] <= n
  {
    hide Start, Count;
    forall v: nat | v <= threads
      ensures Froms(n, threads, ws)[v] <= Ends(n, threads)[v] <= n
    {
      Starts(n, threads, v, ws[v].batch);
    }
  }

  ghost function Unsent<T>(goal: seq<T>, threads: nat, ws: seq<Worker>): multiset<T>
    requires threads > 0 && BatchesOk(|goal|, threads, ws)
  {
    BatchesInside(|goal|, threads, ws);
    Rest(goal, Froms(|goal|, threads, ws), Ends(|goal|, threads))
  }

  lemma ChainAtStart(n: nat, threads: nat, ws: seq<Worker>)
    requires threads > 0 && |ws| == threads + 1 && forall v: nat :: v < |ws| ==> ws[v].batch == 0
    ensures Froms(n, threads, ws)[0] == 0 && Ends(n, threads)[threads] == n
    ensures forall v: nat :: v < threads ==> Froms(n, threads, ws)[v + 1] == Ends(n, threads)[v]
  {
    hide Start, Count;
    Starts(n, threads, 0, 0);
    Starts(n, threads, threads, 0);
    forall v: nat | v < threads
      ensures Froms(n, threads, ws)[v + 1] == Ends(n, threads)[v]
    {
      Starts(n, threads, v, 0);
    }
  }

  /** At the start nothing is sent: the shares cover every input once. */
  lemma UnsentAtStart<T>(goal: seq<T>, threads: nat, ws: seq<Worker>)
    requires threads > 0 && |ws| == threads + 1 && forall v: nat :: v < |ws| ==> ws[v].batch == 0
    ensures BatchesOk(|goal|, threads, ws) && Unsent(goal, threads, ws) == multiset(goal)
  {
    hide Start, Count, Rest, Froms, Ends;
    var n := |goal|;
    BatchesInside(n, threads, ws);
    ChainAtStart(n, threads, ws);
    ChainLength(n, threads, ws);
    RestOfChain(goal, Froms(n, threads, ws), Ends(n, threads));
    assert goal[..n] == goal;
  }

  lemma ChainLength(n: nat, threads: nat, ws: seq<Worker>)
    requires threads > 0 && |ws| == threads + 1
    ensures |Froms(n, threads, ws)| == |Ends(n, threads)| == threads + 1
  {
  }

  lemma UnsentAfterSend<T>(goal: seq<T>, threads: nat, ws: seq<Worker>, v: nat)
    requires threads > 0 && BatchesOk(|goal|, threads, ws) && v < |ws| && ws[v].batch < Count(|goal|, threads, v)
    ensures var ws' := ws[v := Worker(ws[v].batch + 1, [])];
      var from := Start(|goal|, threads, v, ws[v].batch);
      && BatchesOk(|goal|, threads, ws')
      && from + Size(|goal|, threads, v) <= |goal|
      && Unsent(goal, threads, ws) == Unsent(goal, threads, ws') + multiset(goal[from..from + Size(|goal|, threads, v)])
  {
    hide Start, Count, Size, Rest;
    var n := |goal|;
    var ws' := ws[v := Worker(ws[v].batch + 1, [])];
    Starts(n, threads, v, ws[v].batch);
    Starts(n, threads, v, ws[v].batch + 1);
    BatchesInside(n, threads, ws);
    RestAdvance(goal, Froms(n, threads, ws), Ends(n, threads), v, Start(n, threads, v, ws[v].batch + 1));
    assert Froms(n, threads, ws') == Froms(n, threads, ws)[v := Start(n, threads, v, ws[v].batch + 1)];
  }

  lemma UnsentAfterEncode<T>(goal: seq<T>, threads: nat, ws: seq<Worker>, v: nat, filled: seq<Hashes>)
    requires threads > 0 && BatchesOk(|goal|, threads, ws) && v < |ws|
    ensures var ws' := ws[v := Worker(ws[v].batch, filled)];
      BatchesOk(|goal|, threads, ws') && Unsent(goal, threads, ws) == Unsent(goal, threads, ws')
  {
    hide Start, Count;
    var ws' := ws[v := Worker(ws[v].batch, filled)];
    BatchesInside(|goal|, threads, ws);
    assert Froms(|goal|, threads, ws') == Froms(|goal|, threads, ws);
  }

  /** Something is unsent exactly while a worker has a batch left. */
  lemma UnsentWhileWorking<T>(goal: seq<T>, threads: nat, ws: seq<Worker>)
    requires threads > 0 && BatchesOk(|goal|, threads, ws)
    ensures |Unsent(goal, threads, ws)| > 0 <==> exists v: nat :: v < |ws| && ws[v].batch < Count(|goal|, threads, v)
  {
    hide Start, Count, Size;
    var n := |goal|;
    BatchesInside(n, threads, ws);
    if v: nat :| v < |ws| && ws[v].batch < Count(n, threads, v) {
      Starts(n, threads, v, ws[v].batch);
      Starts(n, threads, v, ws[v].batch + 1);
      RestSize(goal, Froms(n, threads, ws), Ends(n, threads), v);
    } else {
      RestOfNothing(goal, Froms(n, threads, ws), Ends(n, threads));
    }
  }

  // ----- steps of the workers

  /** The next input of a worker is in its share and still to be encoded. */
  lemma NextInput(hash: Hashers, key: Key, goal: seq<Hashes>, inputs: seq<Input>, threads: nat, v: nat, w: Worker)
    requires KeyOk(key, |key.rows|) && |inputs| == |goal| && threads > 0 && v <= threads
    requires WorkerOk(hash, key, goal, inputs, threads, v, w)
    requires w.batch < Count(|goal|, threads, v) && |w.filled| < Size(|goal|, threads, v)
    ensures var i := Start(|goal|, threads, v, w.batch) + |w.filled|;
      Start(|goal|, threads, v, 0) <= i < End(|goal|, threads, v) <= |goal| && Awaiting(hash, key, inputs[i], goal[i])
  {
    hide Start, Count, Size, Awaiting;
    Starts(|goal|, threads, v, w.batch);
    Starts(|goal|, threads, v, w.batch + 1);
    StartsAscend(|goal|, threads, v, w.batch);
  }

  /** Encoding one more input. */
  lemma EncodeStep(hash: Hashers, key: Key, goal: seq<Hashes>, inputs: seq<Input>, inputs': seq<Input>,
                   threads: nat, v: nat, w: Worker)
    requires KeyOk(key, |key.rows|) && |inputs| == |inputs'| == |goal| && threads > 0 && v <= threads
    requires WorkerOk(hash, key, goal, inputs, threads, v, w)
    requires w.batch < Count(|goal|, threads, v) && |w.filled| < Size(|goal|, threads, v)
    requires forall k: nat {:trigger inputs'[k]} ::
               k < |goal| && k != Start(|goal|, threads, v, w.batch) + |w.filled| ==> inputs'[k] == inputs[k]
    ensures var i := Start(|goal|, threads, v, w.batch) + |w.filled|;
      i < |goal| && WorkerOk(hash, key, goal, inputs', threads, v, w.(filled := w.filled + [goal[i]]))
  {
    hide Start, Count, Size, Awaiting;
    NextInput(hash, key, goal, inputs, threads, v, w);
    var from := Start(|goal|, threads, v, w.batch);
    var i := from + |w.filled|;
    assert goal[from..i + 1] == goal[from..i] + [goal[i]];
    forall k: nat | i + 1 <= k < End(|goal|, threads, v)
      ensures Awaiting(hash, key, inputs'[k], goal[k])
    {
      assert Awaiting(hash, key, inputs[k], goal[k]);
    }
  }

  lemma StartsAscend(n: nat, threads: nat, v: nat, b: nat)
    requires threads > 0 && v <= threads && b <= Count(n, threads, v)
    ensures Start(n, threads, v, 0) <= Start(n, threads, v, b)
  {
  }

  /** A full batch is sent. */
  lemma SendStep(hash: Hashers, key: Key, goal: seq<Hashes>, inputs: seq<Input>, threads: nat, v: nat, w: Worker)
    requires KeyOk(key, |key.rows|) && |inputs| == |goal| && threads > 0 && v <= threads
    requires WorkerOk(hash, key, goal, inputs, threads, v, w)
    requires w.batch < Count(|goal|, threads, v) && |w.filled| == Size(|goal|, threads, v)
    ensures w.filled != []
    ensures var from := Start(|goal|, threads, v, w.batch);
      from + Size(|goal|, threads, v) <= |goal| && w.filled == goal[from..from + Size(|goal|, threads, v)]
    ensures WorkerOk(hash, key, goal, inputs, threads, v, Worker(w.batch + 1, []))
  {
    hide Start, Count, Size, Awaiting;
    Starts(|goal|, threads, v, w.batch);
    Starts(|goal|, threads, v, w.batch + 1);
    var next := Start(|goal|, threads, v, w.batch + 1);
    assert goal[next..next] == [];
  }

  /** Encoding an input of one worker leaves the others where they are. */
  lemma OthersKeep(hash: Hashers, key: Key, goal: seq<Hashes>, inputs: seq<Input>, inputs': seq<Input>,
                   threads: nat, v: nat, i: nat, u: nat, w: Worker)
    requires KeyOk(key, |key.rows|) && |inputs| == |inputs'| == |goal| && threads > 0 && v <= threads
    requires u <= threads && u != v
    requires WorkerOk(hash, key, goal, inputs, threads, u, w)
    requires Start(|goal|, threads, v, 0) <= i < End(|goal|, threads, v)
    requires forall k: nat {:trigger inputs'[k]} :: k < |goal| && k != i ==> inputs'[k] == inputs[k]
    ensures WorkerOk(hash, key, goal, inputs', threads, u, w)
  {
    hide Start, Count, Size, Awaiting;
    StartsAscend(|goal|, threads, u, w.batch);
    if u < v {
      SharesApart(|goal|, threads, u, v);
    } else {
      SharesApart(|goal|, threads, v, u);
    }
    var next := Start(|goal|, threads, u, w.batch) + |w.filled|;
    forall k: nat | next <= k < End(|goal|, threads, u)
      ensures Awaiting(hash, key, inputs'[k], goal[k])
    {
      assert k != i;
      assert Awaiting(hash, key, inputs[k], goal[k]);
    }
  }

  // ----- the channel and its writer

  ghost predicate AllWorkersOk(hash: Hashers, key: Key, goal: seq<Hashes>, inputs: seq<Input>, threads: nat,
                               ws: seq<Worker>)
    requires KeyOk(key, |key.rows|) && threads > 0
  {
    |inputs| == |goal| && |ws| == threads + 1 &&
    forall v: nat :: v < |ws| ==> WorkerOk(hash, key, goal, inputs, threads, v, ws[v])
  }

  lemma WorkersAtStart(hash: Hashers, key: Key, goal: seq<Hashes>, inputs: seq<Input>, threads: nat, ws: seq<Worker>)
    requires KeyOk(key, |key.rows|) && threads > 0 && |inputs| == |goal| && |ws| == threads + 1
    requires forall v: nat :: v < |ws| ==> ws[v] == Worker(0, [])
    requires forall i: nat :: i < |goal| ==> Awaiting(hash, key, inputs[i], goal[i])
    ensures AllWorkersOk(hash, key, goal, inputs, threads, ws)
  {
    hide Start, Count, Size, Awaiting;
    forall v: nat | v <= threads
      ensures WorkerOk(hash, key, goal, inputs, threads, v, ws[v])
    {
      Starts(|goal|, threads, v, 0);
      assert goal[Start(|goal|, threads, v, 0)..Start(|goal|, threads, v, 0)] == [];
    }
  }

  /** Every result is written, or in the channel, or still to be sent. */
  ghost predicate Conserved(goal: seq<Hashes>, written: seq<Hashes>, queue: seq<seq<Hashes>>, threads: nat,
                            ws: seq<Worker>)
    requires threads > 0 && BatchesOk(|goal|, threads, ws)
  {
    multiset(written) + multiset(Flatten(queue)) + Unsent(goal, threads, ws) == multiset(goal)
  }

  lemma ConservedAtStart(goal: seq<Hashes>, threads: nat, ws: seq<Worker>)
    requires threads > 0 && |ws| == threads + 1 && forall v: nat :: v < |ws| ==> ws[v].batch == 0
    ensures BatchesOk(|goal|, threads, ws) && Conserved(goal, [], [], threads, ws)
  {
    hide Start, Count, Unsent;
    UnsentAtStart(goal, threads, ws);
  }

  /** When as many are written as there are, nothing is in the channel or to be sent. */
  lemma AllWritten(goal: seq<Hashes>, written: seq<Hashes>, queue: seq<seq<Hashes>>, threads: nat, ws: seq<Worker>)
    requires threads > 0 && BatchesOk(|goal|, threads, ws) && Conserved(goal, written, queue, threads, ws)
    requires forall q: nat :: q < |queue| ==> queue[q] != []
    ensures |written| <= |goal|
    ensures |written| == |goal| <==> queue == [] && forall v: nat :: v < |ws| ==>
              ws[v].batch == Count(|goal|, threads, v)
  {
    hide Unsent, Count;
    UnsentWhileWorking(goal, threads, ws);
    var sizes := |multiset(written)| + |multiset(Flatten(queue))| + |Unsent(goal, threads, ws)|;
    assert |multiset(goal)| == sizes;
    if queue != [] {
      assert |Flatten(queue)| >= |queue[0]| > 0;
    }
  }

  /** A bound on the steps left to a worker, when three are reckoned for each input. */
  ghost function Work(hash: Hashers, key: Key, goal: seq<Hashes>, inputs: seq<Input>, threads: nat, v: nat,
                      w: Worker): nat
    requires KeyOk(key, |key.rows|) && |inputs| == |goal| && threads > 0
    requires WorkerOk(hash, key, goal, inputs, threads, v, w)
  {
    3 * (End(|goal|, threads, v) - Start(|goal|, threads, v, w.batch)) - |w.filled|
  }

  ghost function WorkLeft(hash: Hashers, key: Key, goal: seq<Hashes>, inputs: seq<Input>, threads: nat,
                          ws: seq<Worker>): seq<nat>
    requires KeyOk(key, |key.rows|) && threads > 0 && AllWorkersOk(hash, key, goal, inputs, threads, ws)
  {
    seq(|ws|, v requires 0 <= v < |ws| => Work(hash, key, goal, inputs, threads, v, ws[v]))
  }

  lemma WorkAfterEncode(hash: Hashers, key: Key, goal: seq<Hashes>, inputs: seq<Input>, inputs': seq<Input>,
                        threads: nat, ws: seq<Worker>, v: nat, w': Worker)
    requires KeyOk(key, |key.rows|) && threads > 0 && v < |ws|
    requires AllWorkersOk(hash, key, goal, inputs, threads, ws)
    requires AllWorkersOk(hash, key, goal, inputs', threads, ws[v := w'])
    requires w'.batch == ws[v].batch && |w'.filled| == |ws[v].filled| + 1
    ensures Sum(WorkLeft(hash, key, goal, inputs', threads, ws[v := w']))
            < Sum(WorkLeft(hash, key, goal, inputs, threads, ws))
  {
    hide Start, Count, Size, Awaiting;
    SumUpdate(WorkLeft(hash, key, goal, inputs, threads, ws),
              WorkLeft(hash, key, goal, inputs', threads, ws[v := w']), v);
  }

  lemma WorkAfterSend(hash: Hashers, key: Key, goal: seq<Hashes>, inputs: seq<Input>, threads: nat, ws: seq<Worker>,
                      v: nat)
    requires KeyOk(key, |key.rows|) && threads > 0 && v < |ws|
    requires AllWorkersOk(hash, key, goal, inputs, threads, ws)
    requires ws[v].batch < Count(|goal|, threads, v) && |ws[v].filled| == Size(|goal|, threads, v)
    requires AllWorkersOk(hash, key, goal, inputs, threads, ws[v := Worker(ws[v].batch + 1, [])])
    ensures Sum(WorkLeft(hash, key, goal, inputs, threads, ws[v := Worker(ws[v].batch + 1, [])])) + 1
            < Sum(WorkLeft(hash, key, goal, inputs, threads, ws))
  {
    hide Start, Count, Size, Awaiting;
    Starts(|goal|, threads, v, ws[v].batch);
    var ws' := ws[v := Worker(ws[v].batch + 1, [])];
    SumUpdate(WorkLeft(hash, key, goal, inputs, threads, ws), WorkLeft(hash, key, goal, inputs, threads, ws'), v);
  }

  class Stage3 {
    const hash: Hashers
    const key: Key
    const threads: nat
    const inputs: array<Input>
    ghost const goal: seq<Hashes>
    var ws: seq<Worker>
    var queue: seq<seq<Hashes>>
    var closed: bool
    var writer: Writer
    var written: seq<Hashes>

    ghost predicate Shape()
      reads this, inputs
    {
      threads > 0 && KeyOk(key, |key.rows|) && AllWorkersOk(hash, key, goal, inputs[..], threads, ws)
    }

    ghost predicate Valid()
      reads this, inputs
    {
      && Shape()
      && BatchesOk(|goal|, threads, ws)
      && Conserved(goal, written, queue, threads, ws)
      && |queue| <= 2 * threads
      && (forall q: nat :: q < |queue| ==> queue[q] != [])
      && (writer == Starting ==> written == [])
      && (closed <==> writer != Starting && |written| == |goal|)
      && (writer == Exited ==> closed)
    }

    constructor (hash: Hashers, key: Key, threads: nat, inputs: array<Input>, ghost goal: seq<Hashes>)
      requires threads > 0 && KeyOk(key, |key.rows|) && inputs.Length == |goal|
      requires forall i: nat :: i < |goal| ==> Awaiting(hash, key, inputs[i], goal[i])
      ensures Valid() && this.hash == hash && this.key == key && this.threads == threads && this.inputs == inputs
      ensures this.goal == goal && !closed && writer == Starting
    {
      this.hash, this.key, this.threads, this.inputs, this.goal := hash, key, threads, inputs, goal;
      ws := seq(threads + 1, _ => Worker(0, []));
      queue, closed, writer, written := [], false, Starting, [];
      new;
      hide Start, Count, Size, Awaiting, Unsent, WorkerOk, Conserved, AllWorkersOk, BatchesOk;
      WorkersAtStart(hash, key, goal, inputs[..], threads, ws);
      ConservedAtStart(goal, threads, ws);
    }

    /** The goroutines: the workers, the extra worker and the writer. */
    predicate Enabled(g: nat)
      requires threads > 0 && |ws| == threads + 1
      reads this
    {
      if g <= threads then
        ws[g].batch < Count(inputs.Length, threads, g) &&
        (|ws[g].filled| < Size(inputs.Length, threads, g) || |queue| < 2 * threads)
      else
        g == threads + 1 && (writer == Starting || (writer == Ranging && (queue != [] || closed)))
    }

    predicate Finished()
      reads this
      requires threads > 0 && |ws| == threads + 1
    {
      writer == Exited && forall v: nat :: v <= threads ==> ws[v].batch == Count(inputs.Length, threads, v)
    }

    /** No deadlock: until all goroutines have returned, one of them can go on. */
    lemma Progress()
      requires Valid() && !Finished()
      ensures exists g: nat :: g <= threads + 1 && Enabled(g)
    {
      hide Start, Count, Size, Awaiting, Unsent, Conserved, Flatten;
      AllWritten(goal, written, queue, threads, ws);
      if writer == Exited {
        assert false;
      } else if writer == Starting || queue != [] || closed {
        assert Enabled(threads + 1);
      } else {
        var v: nat :| v < |ws| && ws[v].batch != Count(|goal|, threads, v);
        assert Enabled(v);
      }
    }

    /** When all have returned, all results are written, in some order. */
    lemma Outcome()
      requires Valid() && Finished()
      ensures closed && queue == [] && multiset(written) == multiset(goal)
    {
      hide Start, Count, Size, Awaiting, Unsent, Flatten;
      AllWritten(goal, written, queue, threads, ws);
      UnsentWhileWorking(goal, threads, ws);
    }

    /** One turn of the inner loop of worker v. */
    method EncodeNext(v: nat)
      requires Valid() && v <= threads && ws[v].batch < Count(inputs.Length, threads, v)
      requires |ws[v].filled| < Size(inputs.Length, threads, v)
      modifies this`ws, inputs
      ensures Valid()
      ensures ws == old(ws)[v := Worker(old(ws)[v].batch, ws[v].filled)]
      ensures |ws[v].filled| == |old(ws)[v].filled| + 1
    {
      hide Start, Count, Size, Awaiting, Unsent, Flatten;
      ghost var before := inputs[..];
      var w := ws[v];
      var i := Start(inputs.Length, threads, v, w.batch) + |w.filled|;
      NextInput(hash, key, goal, before, threads, v, w);
      AwaitingMeans(hash, key, inputs[i], goal[i]);
      var hashes := EncodeAndHash(inputs, i, hash, key, 1);
      EncodeStep(hash, key, goal, before, inputs[..], threads, v, w);
      forall u: nat | u <= threads && u != v
        ensures WorkerOk(hash, key, goal, inputs[..], threads, u, ws[u])
      {
        OthersKeep(hash, key, goal, before, inputs[..], threads, v, i, u, ws[u]);
      }
      UnsentAfterEncode(goal, threads, ws, v, w.filled + [hashes]);
      ws := ws[v := Worker(w.batch, w.filled + [hashes])];
    }

    /** A full batch is sent. The channel has room and is not closed. */
    method SendBatch(v: nat)
      requires Valid() && v <= threads && ws[v].batch < Count(inputs.Length, threads, v)
      requires |ws[v].filled| == Size(inputs.Length, threads, v) && |queue| < 2 * threads
      modifies this`ws, this`queue
      ensures Valid() && !closed
      ensures queue == old(queue) + [old(ws)[v].filled]
      ensures ws == old(ws)[v := Worker(old(ws)[v].batch + 1, [])]
    {
      hide Start, Count, Size, Awaiting, Unsent, Flatten, WorkerOk, BatchesOk;
      AllWritten(goal, written, queue, threads, ws);
      assert WorkerOk(hash, key, goal, inputs[..], threads, v, ws[v]);
      SendStep(hash, key, goal, inputs[..], threads, v, ws[v]);
      UnsentAfterSend(goal, threads, ws, v);
      FlattenSend(queue, ws[v].filled);
      queue := queue + [ws[v].filled];
      ws := ws[v := Worker(ws[v].batch + 1, [])];
    }

    /** The writer starts, and closes the channel at once when there is nothing to do. */
    method StartWriter()
      requires Valid() && writer == Starting
      modifies this`writer, this`closed
      ensures Valid() && writer == Ranging
    {
      hide Start, Count, Size, Awaiting, Unsent, Flatten;
      AllWritten(goal, written, queue, threads, ws);
      if inputs.Length == 0 {
        closed := true;
      }
      writer := Ranging;
    }

    /** The writer takes a batch, writes it, and closes the channel behind the last one. The channel
        is open until then. */
    method WriteBatch()
      requires Valid() && writer == Ranging && queue != []
      modifies this`queue, this`written, this`closed
      ensures Valid() && !old(closed)
      ensures queue == old(queue)[1..] && written == old(written) + old(queue)[0]
    {
      hide Start, Count, Size, Awaiting, Unsent;
      AllWritten(goal, written, queue, threads, ws);
      var batch := queue[0];
      queue := queue[1..];
      assert Flatten(old(queue)) == batch + Flatten(queue);
      for k := 0 to |batch|
        invariant written == old(written) + batch[..k]
        invariant queue == old(queue)[1..] && ws == old(ws) && closed == old(closed) && writer == old(writer)
      {
        written := written + [batch[k]];
      }
      assert written == old(written) + batch;
      AllWritten(goal, written, queue, threads, ws);
      if |written| == inputs.Length {
        closed := true;
      }
    }

    /** A bound on the steps left. */
    ghost function StepsLeft(): nat
      requires Valid()
      reads this, inputs
    {
      Sum(WorkLeft(hash, key, goal, inputs[..], threads, ws)) + |queue|
      + match writer case Starting => 2 case Ranging => 1 case Exited => 0
    }

    /** A step of goroutine g. */
    method Step(g: nat)
      requires Valid() && Enabled(g)
      modifies this`ws, this`queue, this`closed, this`writer, this`written, inputs
      ensures Valid() && StepsLeft() < old(StepsLeft())
    {
      hide Start, Count, Size, Awaiting, Unsent, Flatten, WorkerOk, Sum, WorkLeft;
      if g <= threads {
        if |ws[g].filled| < Size(inputs.Length, threads, g) {
          EncodeNext(g);
          WorkAfterEncode(hash, key, goal, old(inputs[..]), inputs[..], threads, old(ws), g, ws[g]);
        } else {
          assert WorkerOk(hash, key, goal, inputs[..], threads, g, ws[g]);
          FilledAtMost(hash, key, goal, inputs[..], threads, g, ws[g]);
          SendBatch(g);
          WorkAfterSend(hash, key, goal, inputs[..], threads, old(ws), g);
        }
      } else if writer == Starting {
        StartWriter();
      } else if queue != [] {
        WriteBatch();
      } else {
        writer := Exited;
      }
    }

    /** Any goroutine that can go on goes on, until all have returned: every result is written once,
        and the channel is closed. */
    method Run()
      requires Valid()
      modifies this`ws, this`queue, this`closed, this`writer, this`written, inputs
      ensures closed && queue == [] && multiset(written) == multiset(goal)
    {
      while !Finished()
        invariant Valid()
        decreases StepsLeft()
      {
        hide Valid, StepsLeft, Finished, Enabled;
        Progress();
        var g: nat :| g <= threads + 1 && Enabled(g);
        Step(g);
      }
      Outcome();
    }
  }

  lemma FilledAtMost(hash: Hashers, key: Key, goal: seq<Hashes>, inputs: seq<Input>, threads: nat, v: nat, w: Worker)
    requires KeyOk(key, |key.rows|) && |inputs| == |goal| && threads > 0
    requires WorkerOk(hash, key, goal, inputs, threads, v, w)
    ensures |w.filled| <= Size(|goal|, threads, v)
  {
  }

  lemma AwaitingMeans(hash: Hashers, key: Key, input: Input, h: Hashes)
    requires KeyOk(key, |key.rows|) && Awaiting(hash, key, input, h)
    ensures InputOk(input, key) && HashesOf(hash, key, input) == h
  {
  }
}
