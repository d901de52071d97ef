# Private set intersection, verified

A Dafny model of a Go library for private set intersection, with the properties its protocols rest
on. Each core file is modelled in its own form: what the Go code rewrites in place is a class or an
array here, goroutines are steps that a scheduler takes in any order, and every method is proved
against a specification about which the lemmas then say what it is good for.

The library functions it calls (hashes, pseudorandom codes and streams, elliptic-curve points) are
parameters: total functions, with the hypotheses stated where they are used (lengths of outputs, an
abelian group with scalars, scalars that commute). Where a result needs hashes not to collide, that
is a hypothesis of that clause alone, and the clauses that hold without it are stated beside it.

| file | models |
|---|---|
| `Words`, `LittleEndian`, `UintBits` | machine words bit by bit: as bit-vectors for the matrices, as naturals modulo 2^32 for the permutation |
| `BitVect`, `Blocks`, `ConcurrentTranspose` | the 512x512 in-place bit transpose and its pool of workers over matrices of any number of blocks |
| `BitOps` | the bit kernels that work a word at a time, and their concurrent split |
| `CycleWalk`, `Kensler` | the hashed permutation and its cycle walk |
| `NaorPinkas`, `Oprf` | base oblivious transfer, and the OPRF made from it by OT extension |
| `Cuckoo` | the 3-way cuckoo table |
| `KkrtSender`, `SenderBatches`, `KkrtReceiver`, `Kkrt` | the stages of the KKRT protocol, and the protocol from end to end |
| `DhpsiShufflers`, `DhpsiReader`, `Dhpsi` | the shufflers and readers of the Diffie-Hellman protocol, and the protocol from end to end |
| `Npsi` | the parallel hashing of the naive protocol and its intersection |
| `Sequences` | sums, sequences of distinct elements, and what two sequences share |

## Results

- KKRT: with no assumption on collisions, nothing is reported twice and all that is reported was
  inserted by the receiver. When no hash collides and the empty identifier is not on both sides, the
  result is the intersection. When it is on both sides, the result misses it exactly when the
  receiver's table dropped it, and that happens for every choice of evictions when it comes early:
  when fewer other identifiers have come before it than it has candidate buckets, or one of its
  candidates is none of theirs. When this holds for every new identifier the receiver's table is
  filled for every choice of evictions; and a run that fails does so after 199 evictions in vain.
- DHPSI: for every schedule and when no two identifiers share a point, the result is what the two
  shufflers send in common, and that is the intersection when they are permutations, as for all sizes
  up to 2^31 + 1. For distinct identifiers that are all common it is the intersection only then.
  Without the assumption no identifier is reported twice and each stands for a shared point.
- The transpose really transposes, for every number of blocks and of workers and every interleaving,
  and the tall and the wide transposes undo each other.
- The loop of the hashed permutation ends for the arguments of a shuffler of n elements exactly when
  n fits 32 bits. What it computes is a permutation exactly when `l - 1 + p` does not overflow 32
  bits, and whatever p is drawn exactly when l is at most 2^31 + 1.

## Where the code differs from what its comments or callers suggest

- `kensler.Shuffle` with more than 2^31 + 1 elements may not be a permutation: when `l - 1 + p`
  reaches 2^32, two different inputs both give 0 (`Kensler.ShuffleCollides`, `Kensler.SafeSizes`).
- The error of `NewKensler` is dropped at pkg/dhpsi/dhpsi.go:54 and pkg/dhpsi/dhpsi_parallel.go:48.
  For more than 2^32 - 1 elements the shuffler then has `l = 0` and its `Shuffle` does not return, for
  no argument (`Kensler.EndsIff`).
- The guard of `Insert` (internal/cuckoo/cuckoo.go:148) compares with one slot more than the table
  has, and so never holds. A full table panics at line 151 instead.
- `Exists` compares with the keeper `items[0]` (line 136) when a bucket is free. The empty identifier
  then seems present, and `Insert` drops it without an error (`CuckooTable.EmptyIdentifierIsDropped`).
- With no points to read, nobody closes the channel of `fill`. `Read` returns EOF all the same, for it
  does not look at the channel then (`DhpsiReader.Fill.NothingToDo`).

## Model

| member | source | states |
|---|---|---|
| BitMatrix.MixStep | internal/util/bitvect.go:149-255 | exchanging one more binary digit between the row and the column index of a bit, w being the digit's weight, takes the arrangement for 2w to that for w; the invariant behind all nine stages |
| BitMatrix.BlocksExchangedBits | internal/util/bitvect.go:151-247 | an exchange of word blocks moves each bit as the exchange of one digit of its row and column demands |
| BitMatrix.TileStepBit | internal/util/bitvect.go:259-263 | the masked exchanges of a stage do the same for the bits of a 64x64 tile |
| BitMatrix.BitVect.CopySwap | internal/util/bitvect.go:155-157 | three copies through tmp exchange two ranges of words and leave all others |
| BitMatrix.BitVect.ExchangeBlocks | internal/util/bitvect.go:151-247 | each of the three block stages exchanges all pairs of blocks of its width |
| BitMatrix.BitVect.Swap | internal/util/bitvect.go:259-263 | for the mask of a width, column by column: a masked column of the first word takes what the second has `width` columns before, that one takes what the first had, and all others stay |
| BitMatrix.BitVect.Exchange | internal/util/bitvect.go:269-538 | the calls of swap for one width exchange one digit within a tile and touch no other tile |
| BitMatrix.BitVect.Transpose64 | internal/util/bitvect.go:269-538 | the six widths transpose one tile and leave the rest alone |
| BitMatrix.BitVect.Transpose | internal/util/bitvect.go:149-255 | bit (i, j) afterwards is bit (j, i) before, for all 512 x 512 bits |
| BitMatrix.TransposedTwice | internal/util/bitvect.go:149-255 | the transpose of the transpose has the words of the matrix: transpose is an involution |
| LittleEndian.LoadAtBit | internal/util/bitvect_generic.go:9-25 | bit j of the word read at a place of a row is bit j from that place on |
| LittleEndian.StoreAtBit | internal/util/bitvect_generic.go:28-43 | a word written into a row changes its 64 bits, to those of the word, and no others |
| Blocks.Unravel | internal/util/bitvect_generic.go:9-25 | the BitVect holds, bit for bit, the chosen block of the tall or wide matrix |
| Blocks.PutWordBit | internal/util/bitvect_generic.go:28-43 | writing one word of a block back changes the 64 bits that belong to it and nothing in any block besides |
| Blocks.TransposeTwice | internal/util/bitvect.go:30-140 | a matrix is determined by its transpose: transposing twice gives it back |
| ConcurrentTranspose.OwnerExists | internal/util/bitvect.go:38-71 | every block is in the share of a worker, the last one taking the remainder |
| ConcurrentTranspose.SharesOrdered | internal/util/bitvect.go:38-71 | the shares of two workers have no block in common |
| ConcurrentTranspose.Step | internal/util/bitvect.go:54-70 | one step of a worker changes at most one word of the output and keeps its progress: all words it has written are right |
| ConcurrentTranspose.PoolStep | internal/util/bitvect.go:50-74 | a step of one worker keeps what the other workers have achieved |
| ConcurrentTranspose.RunPool | internal/util/bitvect.go:50-74 | whatever the order of the workers' steps, they come to an end with every bit right |
| ConcurrentTranspose.ConcurrentTransposeTall | internal/util/bitvect.go:30-77 | the result has bit (c, r) where the argument has bit (r, c), for any number of blocks and workers |
| ConcurrentTranspose.ConcurrentTransposeWide | internal/util/bitvect.go:93-140 | the same for wide matrices |
| ConcurrentTranspose.TallAndBack | internal/util/bitvect.go:30-140 | the wide transpose of the tall transpose is the matrix itself, even with different numbers of workers |
| ConcurrentTranspose.WideAndBack | internal/util/bitvect.go:30-140 | the tall transpose of the wide transpose is the matrix itself |
| BitOps.WordIsEightBytes | internal/util/bits_generic.go:22-27 | an operation on little-endian words is the operation on each of their eight bytes |
| BitOps.Kernel | internal/util/bits_generic.go:16-114 | words first, then the tail backwards: every byte of the slice gets the result of the operation on the bytes, and no byte outside changes |
| BitOps.OwnerSlice | internal/util/bits.go:22-38 | the slices of the workers cover every byte, each once |
| BitOps.ConcurrentOp | internal/util/bits.go:14-76 | for any number of workers and any order, the result is that of the operation byte by byte, and bit by bit |
| Kensler.NewKensler | internal/permutations/kensler.go:24-38 | fails exactly above 2^32 - 1; otherwise 2 <= l and p < l - 1, and l is the size asked for unless that is less than 2 |
| Kensler.MaskIsOnes | internal/permutations/kensler.go:52-57 | the smeared mask is the least 2^k - 1 that is not below l - 1 |
| Kensler.UndoMul | internal/permutations/kensler.go:61-75 | on the low bits, multiplying modulo 2^32 by an odd number is undone by multiplying by its inverse |
| Kensler.UndoMaskedShift | internal/permutations/kensler.go:63-74 | so is each masked xorshift, by xors with the repeated shifts |
| Kensler.UnroundRound | internal/permutations/kensler.go:60-77 | the steps of the body undone in reverse order, with the inverses of its constants and its shifts, lead back from what the body computes to its argument, for every argument in [0, w] |
| Kensler.RoundPermutes | internal/permutations/kensler.go:60-77 | the body of the loop maps [0, w] into itself without collisions |
| Kensler.Scramble | internal/permutations/kensler.go:60-77 | what the assignments of the body compute is taken back to their argument by the steps undone |
| CycleWalk.WalkEnds | internal/permutations/kensler.go:59-82 | iterating a permutation from a value below l comes below l again |
| CycleWalk.WalkPermutes | internal/permutations/kensler.go:59-82 | the first return below l is itself a permutation of [0, l) |
| Kensler.EndsBelow | internal/permutations/kensler.go:59-82 | the unbounded loop ends for every argument below l of a shuffler that NewKensler returns |
| Kensler.EndsIff | pkg/dhpsi/dhpsi_parallel.go:48 | with the error of NewKensler dropped, the loop of the shuffler for n elements ends, for each argument below n, if and only if n fits 32 bits |
| CycleWalk.IterBack | internal/permutations/kensler.go:59-82 | where each round can be taken back, so can the walk |
| Kensler.Shuffle | internal/permutations/kensler.go:47-84 | for all arguments for which the loop ends, l or more included, the first return below l, rotated by p; for arguments below l, the rotation undone and the walk back through undone rounds lead to the argument, the first value below l on that way |
| Kensler.ShuffleCollides | internal/permutations/kensler.go:83 | when l - 1 + p reaches 2^32 two different inputs give 0 |
| Kensler.ShuffleIsPermutationIff | internal/permutations/kensler.go:47-84 | Shuffle permutes [0, l) if and only if l - 1 + p < 2^32 |
| Kensler.SafeSizes | internal/permutations/kensler.go:24-84 | all shufflers of l elements are permutations, whatever is drawn, if and only if l is at most 2^31 + 1 |
| Kensler.SingleElement | internal/permutations/kensler.go:24-84 | a shuffler made for one element keeps it in its place although its l is 2 |
| NaorPinkas.CipherTwice | internal/crypto/cipher.go:10-15 | the cipher is the hash stream of key and index xored with the message, bit by bit, and undoes itself |
| NaorPinkas.SharedKey | internal/ot/naor_pinkas.go:60-77 | on both branches the key that the sender derives for the chosen message is bR |
| NaorPinkas.Send | internal/ot/naor_pinkas.go:60-92 | for each point received, the two ciphertexts are, bit by bit, the messages xored with the hash streams of rK0 with index 0 and of rA - rK0 with index 1 |
| NaorPinkas.ReceiverPoints | internal/ot/naor_pinkas.go:114-134 | the point sent is B for choice 0 and A - B for choice 1 |
| NaorPinkas.Decrypt | internal/ot/naor_pinkas.go:149-156 | each message is the chosen ciphertext xored with the hash stream of bR and the choice |
| NaorPinkas.Run | internal/ot/naor_pinkas.go:60-159 | for all messages and choices the receiver gets the chosen message of each pair; what is sent in both directions; it fails exactly when the counts differ |
| Oprf.Pad | internal/util/bits.go:115-122 | the least multiple that is not below n |
| Oprf.KeyColumnBit | internal/oprf/oprf.go:83-106 | a bit of a key column is the receiver's bit, flipped exactly when both the secret bit and the code bit are set |
| Oprf.RowRelation | internal/oprf/oprf.go:107-111 | after the transposes: row q_j is t_j XOR (s AND C_j), bit by bit |
| Oprf.EncodeIsOwnRow | internal/oprf/oprf.go:230-232 | encoding the code of row j under the key of row j gives the receiver's row j |
| Oprf.ShareStep | internal/oprf/oprf.go:137-149 | a worker that fills its next slot leaves the others right or still ahead |
| Oprf.CodesOfBuckets | internal/oprf/oprf.go:131-156 | row b is the code of the item in bucket b, for every number of workers and every order of their turns |
| Oprf.PadRows | internal/oprf/oprf.go:134-161 | zero rows up to the next multiple of 512, the others kept |
| Oprf.OwnColumns | internal/oprf/oprf.go:179-203 | the receiver's columns are the streams of the first seeds, and a bit of a mask is the xor of both streams and the code |
| Oprf.KeyColumns | internal/oprf/oprf.go:83-106 | a bit of the sender's columns is that of the stream of its seed, flipped where the secret bit and the mask bit are set |
| Oprf.Encode | internal/oprf/oprf.go:230-232 | the buffer is overwritten, bit by bit, by the code AND the secret XOR the row of the key |
| Oprf.Run | internal/oprf/oprf.go:70-206 | an honest run succeeds exactly when both sides agree on the number of buckets; then for every bucket encoding the code of its item gives the receiver's row, bit c of that row is the bucket's bit of the stream of seed c, and the key has the same bit, flipped where the secret and the code have theirs |
| CuckooTable.Evict | internal/cuckoo/cuckoo.go:199-216 | taking an occupied bucket houses the homeless item and makes just the one evicted homeless |
| CuckooTable.FindPlace | internal/cuckoo/cuckoo.go:132-141 | an inserted item is in one of its own candidate buckets |
| CuckooTable.OccupiedCounted | internal/cuckoo/cuckoo.go:223-232 | as many buckets are taken as there are items |
| CuckooTable.Cuckoo.constructor | internal/cuckoo/cuckoo.go:86-110 | an empty table with room for `size` items, every field of it |
| CuckooTable.Cuckoo.Exists | internal/cuckoo/cuckoo.go:132-141 | true exactly for the inserted items, and for the empty one when it has a free bucket |
| CuckooTable.Cuckoo.TryAdd | internal/cuckoo/cuckoo.go:177-191 | the homeless item goes to its first bucket that is free and not excepted, and nothing else changes; or there is none, and nothing changes |
| CuckooTable.Cuckoo.TryGreedyAdd | internal/cuckoo/cuckoo.go:196-220 | for every sequence of random choices: at every turn one item is homeless and no bucket of it is free; it ends at the first evicted item with a free bucket, in the state that the choices lead to, or after exactly 199 evictions with the last evicted item homeless |
| CuckooTable.Cuckoo.House | internal/cuckoo/cuckoo.go:159-172 | a free bucket is taken whenever there is one, the first of them; evictions come only when there is none |
| CuckooTable.FailureMeans | internal/cuckoo/cuckoo.go:165-172 | an Insert that leaves an item homeless found all candidate buckets taken and made 199 evictions |
| CuckooTable.Cuckoo.Insert | internal/cuckoo/cuckoo.go:147-173 | keeps the table valid and appends the item, unless it is present; always succeeds with a free candidate bucket and a slot; the state it leaves and its outcome for given random choices; which one item is missing after a failure |
| CuckooTable.Cuckoo.GetBucket | internal/cuckoo/cuckoo.go:114-119 | the item of a taken bucket hashes to that bucket |
| CuckooTable.Cuckoo.GetItemWithHash | internal/cuckoo/cuckoo.go:123-129 | the recorded hash function leads back to the item |
| CuckooTable.Cuckoo.LoadFactor | internal/cuckoo/cuckoo.go:223-232 | the number of items over the number of buckets |
| CuckooTable.EmptyIdentifierIsDropped | internal/cuckoo/cuckoo.go:132-157 | a fresh table drops the empty identifier without an error |
| KkrtSender.Inputs | pkg/kkrtpsi/sender.go:127-140 | the three codes and buckets of each identifier, in order |
| KkrtSender.EncodeAndHash | pkg/kkrtpsi/kkrtpsi.go:26-34 | the hashes of the encodings of the codes as they were before; the codes are overwritten, other inputs are not touched |
| KkrtSender.Starts | pkg/kkrtpsi/sender.go:181-221 | each batch starts where the one before ends, each worker's share where the one before ends, and the extra worker's share ends with the inputs |
| KkrtSender.SharesApart | pkg/kkrtpsi/sender.go:188-221 | no input is in the shares of two workers |
| KkrtSender.RestOfChain | pkg/kkrtpsi/sender.go:188-221 | shares that follow each other hold every element once, as multisets |
| SenderBatches.AllWritten | pkg/kkrtpsi/sender.go:243-254 | the count `sent` reaches the number of inputs exactly when the channel is empty and every worker is done |
| SenderBatches.Stage3.EncodeNext | pkg/kkrtpsi/sender.go:194-196 | a worker encodes its next input, which nobody has encoded before; nothing is lost |
| SenderBatches.Stage3.SendBatch | pkg/kkrtpsi/sender.go:198-203 | a full batch goes into the channel, which has room and is not closed |
| SenderBatches.Stage3.WriteBatch | pkg/kkrtpsi/sender.go:243-254 | a batch is written in order, and the channel, still open, is closed behind the last one |
| SenderBatches.Stage3.Progress | pkg/kkrtpsi/sender.go:185-258 | until all goroutines have returned, one of them can go on |
| SenderBatches.Stage3.Run | pkg/kkrtpsi/sender.go:177-258 | for every number of inputs and workers and every interleaving: the multiset written is that of the results, and the channel ends closed and empty |
| CuckooTable.CandidateFree | internal/cuckoo/cuckoo.go:132-141 | while there are fewer items than an item has candidate buckets, one of these is free |
| KkrtReceiver.RoomIsFree | pkg/kkrtpsi/receiver.go:71-77 | what came before tells when a candidate bucket must be free, whatever the evictions |
| KkrtReceiver.FillTable | pkg/kkrtpsi/receiver.go:71-77 | succeeds when there is room for all; fails only with an Insert, after those before it succeeded from the empty table on, that finds no free candidate bucket and makes 199 evictions; otherwise the table holds all identifiers but possibly the empty one, and no others; and not the empty one, whatever the evictions, when it comes early |
| KkrtReceiver.MakeIndex | internal/oprf/oprf.go:208-224 | the maps hold, for every hash function and key, the last taken bucket with them, and nothing else |
| KkrtReceiver.OneKeyPerItem | internal/oprf/oprf.go:217-224 | no item is found under two keys of the maps |
| KkrtReceiver.Intersect | pkg/kkrtpsi/receiver.go:119-138 | for any remote hashes: no item twice, and exactly the items of the buckets that are indexed and asked for |
| Kkrt.SendAll | pkg/kkrtpsi/sender.go:121-256 | what reaches the receiver are the hashes of all the sender's identifiers, each once |
| Kkrt.ReportedShares | pkg/kkrtpsi/receiver.go:127-136 | every reported item shares a hash, under the same hash function, with an identifier of the sender |
| Kkrt.CommonReported | pkg/kkrtpsi/receiver.go:127-136 | when the hashes of the table's items do not collide, a common identifier is reported |
| Kkrt.ReportedExactly | pkg/kkrtpsi/receiver.go:119-138 | collisions or not: exactly the items are reported whose bucket is the last with their hash and which share it with an identifier of the sender |
| Kkrt.Run | pkg/kkrtpsi/receiver.go:57-161 | the protocol from end to end: a result whenever there is room for all, and a failure only as FillTable says; the key comes from the seeds; no duplicates and only identifiers of the receiver; exactly what is reported, collisions or not; with no collisions the intersection if the empty identifier is not on both sides, and otherwise if and only if the table holds it; never the intersection when it is on both sides and comes early |
| DhpsiShufflers.WriteStep | pkg/dhpsi/dhpsi.go:79-82 | writing the point whose turn it is keeps the cache exact: those received and not yet written |
| DhpsiShufflers.DeriveMultiplyShuffler.Shuffle | pkg/dhpsi/dhpsi.go:64-102 | the last identifier completes the stream: the k-th point is that of identifier p(k); one more is refused |
| DhpsiShufflers.ShuffleAll | pkg/dhpsi/dhpsi.go:64-102 | the stream of all identifiers through the sequential shuffler |
| DhpsiShufflers.NextPlace | pkg/dhpsi/dhpsi_parallel.go:75-91 | the place in the batch, when the batch is complete, and where the next one starts |
| DhpsiShufflers.WorkerWrites | pkg/dhpsi/dhpsi_parallel.go:67-73 | a worker's write puts one more point right and spoils none |
| DhpsiShufflers.DeriveMultiplyParallelShuffler.Flush | pkg/dhpsi/dhpsi_parallel.go:94-103 | the WaitGroup reaches zero when all batches are done and not before; then the points are written in the order of the permutation |
| DhpsiShufflers.DeriveMultiplyParallelShuffler.Shuffle | pkg/dhpsi/dhpsi_parallel.go:59-105 | for every schedule, the counter is the number of batches made and not finished, and the last identifier completes the same stream |
| DhpsiShufflers.ParallelShuffleAll | pkg/dhpsi/dhpsi_parallel.go:59-105 | the parallel shuffler writes what the sequential one writes |
| DhpsiReader.TotalBatches | pkg/dhpsi/dhpsi_parallel.go:154-158 | the batches cover all points, and none is empty |
| DhpsiReader.LastAskerIsTold | pkg/dhpsi/dhpsi_parallel.go:162-198 | the answer is 0 for the last of T askers and no other, for T = 1 and for more |
| DhpsiReader.Arrives | pkg/dhpsi/dhpsi_parallel.go:187-191 | a batch that arrives is held by no other worker, and its worker is one more that waits for an answer |
| DhpsiReader.Fill.TakeBatch | pkg/dhpsi/dhpsi_parallel.go:203-225 | batch n is made of the points that follow those of batch n - 1 |
| DhpsiReader.Fill.Drain | pkg/dhpsi/dhpsi_parallel.go:235-251 | after each arrival the points given out are those of the first `sent` batches, and the ring holds the others that have arrived |
| DhpsiReader.Fill.SendBatch | pkg/dhpsi/dhpsi_parallel.go:187-191 | `batches` is open whenever a worker sends on it |
| DhpsiReader.Fill.Ask | pkg/dhpsi/dhpsi_parallel.go:193-198 | `batches` is closed by the T-th asker, when it is open and all batches have arrived |
| DhpsiReader.Fill.FlushRing | pkg/dhpsi/dhpsi_parallel.go:253-257 | the rest of the ring is the rest of the batches, in order |
| DhpsiReader.Fill.Progress | pkg/dhpsi/dhpsi_parallel.go:151-261 | until the last batch is out, some goroutine can go on, even with one worker |
| DhpsiReader.Fill.NothingToDo | pkg/dhpsi/dhpsi_parallel.go:151-261 | when there are no points, no goroutine can go on and no channel is ever closed |
| DhpsiReader.Fill.Run | pkg/dhpsi/dhpsi_parallel.go:151-261 | for every schedule, until nothing can go on: the channel carries exactly the multiplied points in the order read, and is closed unless there are none |
| DhpsiReader.MultiplyReader.Read | pkg/dhpsi/dhpsi.go:166-173 | the next point, multiplied; EOF after the last |
| DhpsiReader.MultiplyParallelReader.Read | pkg/dhpsi/dhpsi_parallel.go:278-295 | the same as the sequential reader; never an unexpected EOF |
| DhpsiReader.ReadAll | pkg/dhpsi/dhpsi_parallel.go:278-295 | all reads together give the points multiplied one by one |
| Dhpsi.MatchStep | pkg/dhpsi/receiver.go:124-136 | a point matches exactly when it is remote and the first of its like |
| Dhpsi.Replier.Work | pkg/dhpsi/sender.go:77-93 | a step of the sender's reader gives out more of the multiplied points and changes none already written back |
| Dhpsi.Replier.Progress | pkg/dhpsi/sender.go:85-95 | until all points are written back the sender can go on |
| Dhpsi.Receiver.AllStored | pkg/dhpsi/receiver.go:104-112 | once a point has come back, every local identifier has been stored, and the points are the expected ones in order |
| Dhpsi.Receiver.MatchNext | pkg/dhpsi/receiver.go:161-162 | a match is looked up among the complete local identifiers and appended |
| Dhpsi.Receiver.Progress | pkg/dhpsi/receiver.go:146-167 | until both stages have reported, something can go on |
| Dhpsi.Receiver.Join | pkg/dhpsi/receiver.go:146-167 | with both stages, the sender's batched reader and its writer taking turns in any order, the loop ends with all points read and no match left over |
| Dhpsi.MatchesDiffer | pkg/dhpsi/receiver.go:130-135 | no identifier is matched twice |
| Dhpsi.RemoteIsMatched | pkg/dhpsi/receiver.go:124-136 | every identifier that was sent and comes back as a remote point is matched, or another one with the same point |
| Dhpsi.DrawnIsAllIff | pkg/dhpsi/dhpsi_parallel.go:97-102 | of distinct identifiers a shuffler leaves none out if and only if its order is a permutation |
| Dhpsi.Stage1 | pkg/dhpsi/receiver.go:69-89 | the index holds exactly the points, under both scalars, of the identifiers the sender sent |
| Dhpsi.Run | pkg/dhpsi/receiver.go:48-171 | the protocol from end to end, for every schedule and all orders: no duplicates, only shared points; exactly what both sent when identifiers share no points; and the intersection when the orders are permutations |
| Dhpsi.ShufflerPermutes | pkg/dhpsi/dhpsi_parallel.go:48 | the shuffler of n elements maps them to themselves, and permutes them if and only if n < 2 or n - 1 + p < 2^32 |
| Dhpsi.Order | pkg/dhpsi/dhpsi_parallel.go:97-98 | the order in which a shuffler sends is that of kensler.Shuffle, place by place |
| Dhpsi.RunShuffled | pkg/dhpsi/receiver.go:48-171 | the protocol with the orders of NewKensler: what both sides send in these orders; the intersection when no sum overflows, as for all sizes up to 2^31 + 1; and, for distinct identifiers all common, only then |
| Npsi.HeldUpdate | pkg/npsi/npsi_parallel.go:26-38 | what the handlers hold together changes by what one handler holds |
| Npsi.PumpStep | pkg/npsi/npsi_parallel.go:54-58 | a pair pumped out is one pair less held: none is lost or made up |
| Npsi.HashAll.Pump | pkg/npsi/npsi_parallel.go:54-60 | pairs are sent while the channel is open |
| Npsi.HashAll.Progress | pkg/npsi/npsi_parallel.go:49-102 | until the channel is closed, something can go on |
| Npsi.HashAllParallel | pkg/npsi/npsi_parallel.go:49-102 | for every schedule the pairs are, as a multiset, those of all identifiers with their hashes |
| Npsi.Intersect | pkg/npsi/receiver.go:81-109 | no duplicates, only identifiers whose hash is shared, one for each common identifier, and the intersection when no hash is shared |
| Sequences.FoundIsExact | pkg/npsi/receiver.go:104-109 | what is found by shared values is exactly the intersection when different elements share no value |

## Left out

- The amd64 variants of the kernels and of the block copies, which cast slices and mean the same.
- Unrolled code: the calls of `swap` in `transpose64` and the copies in `transpose` are loops over the
  same pairs of rows, the calls of `swap` in the same order.
- The panics of the transposes for matrices of the wrong shape and of the kernels for slices of
  different lengths are preconditions; all callers in the model meet them.
- Output matrices are arrays of rows that are values; a write to a row replaces the row.
- Reading a block and transposing it in a worker's own BitVect are single steps of the scheduler;
  writes to the shared output are one word a step.
- BitOps.ConcurrentOp: the slices of the workers are processed in any order but each in one step; the
  slices do not overlap. Arguments do not alias the destination.
- CuckooTable.Cuckoo.Insert: an item that is nil is the same as an empty one, so the `id == nil` error of
  the receiver does not occur; nothing is said of a table after a failed Insert, which its caller
  abandons.
- The number of buckets, which the source computes with a floating-point factor, is a parameter of at
  least 1 that both sides share; `LoadFactor` is a real number.
- Random choices are arbitrary values or parameters; nothing is said about probabilities or secrecy.
- Network reads and writes, buffering, contexts and cancellation, logging and errors of the transport:
  messages are passed as sequences in order, and only runs without such errors are modelled.
- The lengths of the base OT messages are agreed: both sides read what the other writes.
- Both sides announce the number of identifiers they really send; a wrong announcement is not modelled.
- The receiver's shuffled points reach the sender in one piece, when the last has been written; the
  sender's reader, which waits for them, starts then.
- In `fill` the copying of one batch to its consumer is one step, the consumer always reading; the
  goroutine of the countdown that may be left behind at the end is not modelled further.
- The read-error path of `fill`, where workers may still be on their way.
- For which arguments of at least l the loop of `kensler.Shuffle` ends is not decided; no caller has
  such arguments.
- `DeriveMultiplyShuffler` is modelled for permutations only; with another function its cache would
  yield zero points.
- The hash functions, ciphers, generators and curve arithmetic themselves.
- `pkg/bpsi`, `pkg/psi` and `pkg/pair`, the other permutations, and the helpers for reading input, which
  are thin wrappers.
