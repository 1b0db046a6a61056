# PulseFanout, modelled and proved in Dafny

PulseFanout carries market-data messages from a producer to many consumers:
producer → shared-memory ring → sender → erasure coding, fan-out or durable relay
→ receiver → duplicate suppression → ring. This project models the parts of that
path whose correctness is hard to see from the code and proves what each one
promises, for all inputs, all interleavings and all runs.

`dafny verify dfyconfig.toml` checks everything. The files build on each other in
this order.

| file | what it covers |
|---|---|
| `Options`, `Bytes` | optional values; bytes as integers with the machine's exclusive or |
| `Gf256` | the field of 256 elements: shift-and-reduce product, inverse by a^254, all field laws |
| `Elimination` | in-place Gauss-Jordan elimination: every swap, scaling and subtraction keeps the solution set; it succeeds on exactly the nonsingular systems |
| `Cauchy` | every square submatrix of the code's coefficients has a trivial kernel, so the elimination finds every pivot and its result is the only solution |
| `Wire`, `Message`, `Codec` | fixed-width big-endian fields, the three message types, and the writer and reader that move through the bytes |
| `Fec` | the shard envelope and the systematic encoder |
| `Generations`, `Refusals`, `FecDecoder` | the decoder: its state per generation as a specification, what it refuses and what a refusing callback causes, and the loops that implement it |
| `Recovery`, `Runs` | any n distinct shards of a generation of n frames publish every frame exactly, in any order, among other traffic and early expiries; what each shard publishes, to the frame |
| `Dedupe`, `Bitmap` | duplicate suppression as a set with a moving base, equal to a reference without a window, and the circular bitmap that refines it |
| `Receiver`, `Pipeline` | stream identities, decoder, duplicate suppression and output ring composed; the ring is exactly what passes of the offered messages; single messages and whole generations reach it end to end |
| `Ring`, `SharedRing` | the single-writer ring as interleaved steps under slot locks with processes that may die; its two operations as they run alone |
| `Durable`, `Relay` | the spool's transactions; the relay protocol over a network that loses, repeats and delays, with crashes on both sides |
| `Fanout` | one bounded queue and worker per destination, failure isolation and exact accounting |

How the imperative parts are written: an object that the program updates in place is
a class whose methods are proved against a specification function (`Encoder`,
`Decoder`, `Window`, `Writer`, `Reader`, `Receiver`, `SharedRing`, `Store`, `Fanout`),
loops over local variables are methods with invariants, and what the program promises
is then proved about the specification. The ring and the relay, whose promises are
about interleavings, are state machines over actions; a run is any finite sequence of
actions.

Conventions. Sequence numbers, indices and identifiers are unbounded; `Dedupe.NoWrap`
states the range in which the window's 64-bit sums do not wrap. A size that must be a power
of two is used only through remainders, which is what masking computes for such a size. Doubles are
their 64-bit patterns. The publish callback of the decoder answers by a pure predicate on
the frame, which is what the receiver's callback does: it refuses exactly the frames that
do not decode or carry another identity. Clock readings are arguments.

Where documentation and code disagree the code is followed: `harness/README.md` still
describes the parity as a single exclusive or, while the encoder in
`harness/include/fec.h` builds up to sixteen Cauchy rows of which only the first is an
exclusive or (`docs/transport.md` says the same as the code).

One expected property does not hold without a condition. A lapped read should resume
strictly ahead of its index. Whether it does is decided by the state in which it gets its
slot: it resumes strictly ahead if and only if the writer had not died between its two
stores (slot number, write index) of the frame one lap after that index
(`Ring.ReadIsDecided`). There is at most one such index, and it stays stalled for ever
(`Ring.StallsForever`); `Ring.DeadWriterStalls` is a run in which it happens.

## Model

| member | source | states |
|---|---|---|
| Gf256.Multiply | harness/include/fec.h:36-40 | the shift-and-reduce loop computes the field product |
| Gf256.DoubleReduces | harness/include/fec.h:34-40 | multiplying by 2 doubles below 128 and otherwise doubles modulo 256 and adds 0x1d: the reduction polynomial is 0x11d |
| Gf256.ProductUnique | harness/include/fec.h:36-40 | any operation with 1 as right unit that distributes over exclusive or and commutes with multiplication by x is this product |
| Gf256.MulXorLeft | harness/include/fec.h:36-40 | the product distributes over exclusive or on the left |
| Gf256.MulXorRight | harness/include/fec.h:36-40 | the product distributes over exclusive or on the right |
| Gf256.MulComm | harness/include/fec.h:36-40 | the product is commutative |
| Gf256.MulAssoc | harness/include/fec.h:36-40 | the product is associative |
| Gf256.MulOne | harness/include/fec.h:36-40 | 1 is the unit |
| Gf256.NoZeroDivisors | harness/include/fec.h:36-40 | a product is zero only if a factor is |
| Gf256.Fermat | harness/include/fec.h:41-45 | a^256 = a for every element |
| Gf256.InverseLaw | harness/include/fec.h:41-45 | a times a^254 is 1 for every non-zero a |
| Gf256.Inverse | harness/include/fec.h:41-45 | the square-and-multiply loop returns the multiplicative inverse, and refuses exactly zero |
| Elimination.SwapKeepsKernel | harness/include/fec.h:343 | exchanging two rows keeps exactly the same solutions |
| Elimination.NormalizeKeepsKernel | harness/include/fec.h:344-346 | scaling the pivot row by its inverse keeps exactly the same solutions |
| Elimination.ClearKeepsKernel | harness/include/fec.h:347-351 | subtracting multiples of the pivot row keeps exactly the same solutions |
| Elimination.RoundKeepsSolutions | harness/include/fec.h:339-352 | one round clears one more column and keeps the solution set |
| Elimination.NoPivotSingular | harness/include/fec.h:340-342 | a column without a pivot means the system is singular |
| Elimination.EliminationSolves | harness/include/fec.h:339-352 | a nonsingular system is brought to the identity with the same solutions |
| Elimination.EliminationExact | harness/include/fec.h:339-352 | the elimination succeeds if and only if the system is nonsingular |
| Elimination.FindPivot | harness/include/fec.h:340-341 | the search returns the first row at or below the diagonal with a non-zero entry, or the number of rows |
| Elimination.ClearLoop | harness/include/fec.h:347-351 | the clearing loop on matrix and right-hand side clears the column of the combined system |
| Elimination.Eliminate | harness/include/fec.h:339-352 | the in-place loops compute the elimination of the combined system and report the missing pivot |
| Cauchy.CauchyKernel | harness/include/fec.h:46-48 | a Cauchy system with distinct nodes has only the zero solution |
| Cauchy.SubmatrixKernel | harness/include/fec.h:46-48 | every square submatrix of the coefficients, distinct rows below 16 and columns below 128, has a trivial kernel |
| Cauchy.SubmatrixNonsingular | harness/include/fec.h:328-332 | the matrix of a recovery is nonsingular whatever the right-hand side |
| Cauchy.SameSolutions | harness/include/fec.h:339-352 | systems with the same kernel are solved by the same blocks |
| Cauchy.IdentitySolves | harness/include/fec.h:353-354 | the blocks that solve an identity system are its right-hand rows |
| Cauchy.RecoveredIsUniqueSolution | harness/include/fec.h:327-352 | blocks solve the parity equations if and only if they are what the elimination leaves |
| Cauchy.PivotFound | harness/include/fec.h:341-342 | the elimination of a recovery never lacks a pivot |
| Cauchy.CoefficientOf | harness/include/fec.h:46-48 | the computed coefficient is the specified one |
| Cauchy.CoefficientMatrix | harness/include/fec.h:328-332 | the filled matrix is the submatrix of the rows and columns used |
| Cauchy.Solve | harness/include/fec.h:327-352 | matrix set-up and elimination succeed and return the recovered blocks |
| Wire.FromToBigEndian | harness/include/wire.h:24-44 | reading back a written integer gives the integer |
| Wire.ToFromBigEndian | harness/include/wire.h:24-44 | writing back a read integer gives its bytes |
| Wire.BigEndianAt | harness/include/wire.h:27 | byte i of an n-byte integer is its quotient by 256^(n-1-i), modulo 256: most significant first |
| Wire.FromBigEndianConcat | harness/include/wire.h:44 | earlier bytes weigh more: the integer of a concatenation is the first part times 256 to the length of the second, plus the second |
| Wire.FromToBits | harness/include/wire.h:25-48 | the reader's case split undoes two's complement |
| Wire.ToFromBits | harness/include/wire.h:25-48 | every bit pattern is the pattern of the value read from it |
| Wire.DecodeSucceeds | harness/include/wire.h:34-53 | reading fields succeeds exactly when enough bytes are there, and every value fits its type |
| Wire.DecodeEncodeValues | harness/include/wire.h:19-53 | fields written and read back are unchanged, whatever follows |
| Wire.EncodeDecodeValues | harness/include/wire.h:19-53 | bytes read as fields and written back are unchanged |
| Wire.EncodedAt | harness/include/wire.h:19-33 | every field stands at the sum of the sizes before it, in its own bytes |
| Wire.DecodedAt | harness/include/wire.h:34-53 | every field is read from that offset |
| Message.WireSizes | docs/transport.md:144 | the three message types take 200, 196 and 540 wire bytes |
| Message.DecodeEncode | harness/include/wire.h:54-89 | every valid native message survives encoding and decoding, field by field |
| Message.EncodeDecode | harness/include/wire.h:54-89 | every accepted frame re-encodes to the same bytes |
| Message.OtherLengthsRefused | harness/include/wire.h:72-89 | every proper truncation or extension of an encoded frame is refused |
| Message.FrameLayout | harness/include/wire.h:54-61 | an encoded frame begins with "PUL3" and holds number, send time, type, version 2, its own length, stream and epoch at bytes 4, 12, 20, 22, 24, 28 and 36 |
| Message.BodyFieldAt | harness/include/wire.h:54-61 | every body field stands behind the header at the sum of the sizes before it |
| Message.EncodedExactly | harness/include/wire.h:62-71 | exactly version 2 messages of the three types at their native sizes 256, 192 and 576 are encoded |
| Message.DecodedMagic | harness/include/wire.h:77-81 | every byte string that decodes begins with "PUL3" |
| Codec.Writer.PutValue | harness/include/wire.h:23-28 | the shifting loop appends the integer's bytes, most significant first |
| Codec.Writer.PutValues | harness/include/wire.h:21-22 | fields are appended in order |
| Codec.Reader.GetValue | harness/include/wire.h:39-48 | the reading loop returns the integer and advances, or stops at a truncated field without advancing |
| Codec.Reader.GetValues | harness/include/wire.h:37-38 | fields are read in order, none if the input ends inside one |
| Codec.EncodeFrame | harness/include/wire.h:54-71 | the two-pass writer produces the specified frame or refuses an invalid message |
| Codec.DecodeFrame | harness/include/wire.h:77-89 | the reader accepts and refuses exactly as specified |
| Codec.DecodeFrameAs | harness/include/wire.h:72-76 | a typed read checks that all bytes were consumed, the length and the version |
| Fec.ReadWriteEnvelope | harness/include/fec.h:49-59 | a written shard header reads back |
| Fec.EnvelopeLayout | harness/include/fec.h:49-54 | the seven header fields stand at bytes 0, 4, 8, 10, 12, 14 and 16 of a shard |
| Fec.ReadLayout | harness/include/fec.h:55-59 | they are read from those bytes, whatever the bytes hold |
| Fec.ShardMagic | harness/include/fec.h:49-54 | a written shard begins with "FEC2" |
| Fec.ProtectedFrameReads | harness/include/fec.h:61-75 | a protected block yields its frame's length and bytes |
| Fec.ProtectedLayout | harness/include/fec.h:61-75 | a protected block is the length, low byte first, the frame, then zeros |
| Fec.LongestFrame | harness/include/fec.h:100 | the width of a generation is attained by one of its frames |
| Fec.FirstRowIsXor | harness/include/fec.h:34-48 | the first row of coefficients is all ones |
| Fec.Encoder.constructor | harness/include/fec.h:93-95 | a new encoder is empty |
| Fec.Encoder.Add | harness/include/fec.h:97-102 | a frame is added exactly when its length is legal and the generation has room |
| Fec.Encoder.Close | harness/include/fec.h:108-138 | closing builds every data and parity datagram of the generation and empties the encoder; an empty generation is refused |
| Fec.DataLoop | harness/include/fec.h:113-117 | the first loop builds the data datagrams and the exclusive or of all protected blocks |
| Fec.ShardLoop | harness/include/fec.h:123-128 | the inner loops compute one parity shard |
| Fec.ExtraLoop | harness/include/fec.h:122-134 | the remaining parity datagrams are built row by row |
| Generations.ReceiveKeepsValid | harness/include/fec.h:175-219 | every byte string leaves every generation in its invariant and touches at most the slot it names |
| Generations.ConflictRefused | harness/include/fec.h:201-206 | a parity shard that disagrees with the recorded closure is refused and changes nothing |
| Generations.ShardExactly | harness/include/fec.h:176-179 | a datagram is taken for a shard exactly when it has at least 17 bytes and begins with "FEC2" |
| Generations.Expired | harness/include/fec.h:221-223 | after expiry no active slot is a second old, and every younger slot is unchanged |
| Refusals.PlainHandedOver | harness/include/fec.h:176-179 | any other datagram is handed to the callback as it is, published exactly if accepted, and changes no slot |
| Refusals.MalformedRefused | harness/include/fec.h:180-199 | a shard whose header bounds fail (k, index, parity count, length, close reason) is refused and changes nothing |
| Refusals.OtherSizeRefused | harness/include/fec.h:187 | a data shard that announces another size is refused and changes nothing |
| Refusals.RefusedFrameNotCounted | harness/include/fec.h:186-192 | a data shard whose frame the callback refuses counts as not arrived and publishes nothing |
| Refusals.TakenFrameFirst | harness/include/fec.h:192-195 | a data shard whose frame the callback takes publishes it first and unrecovered; all that follows is recovered |
| Refusals.OtherWidthRefused | harness/include/fec.h:214-215 | a parity shard of another width than those held is refused and what is held stays |
| Refusals.ClosureRecorded | harness/include/fec.h:203-218 | a parity shard is refused without a trace or its k, parity count and close reason are the generation's from then on |
| Refusals.RecoveryOutcome | harness/include/fec.h:312-374 | for any valid generation, honest or not: nothing to do, refused for inconsistent widths or lengths, or the solved frames in order up to the first one the callback refuses, exactly these counting as arrived |
| Refusals.PrefixPublished | harness/include/fec.h:358-367 | publishing stops at the first refusal; the generation is recovered exactly if there is none |
| Generations.PivotAlwaysFound | harness/include/fec.h:322-342 | no state of a valid generation reaches the missing-pivot exit |
| Recovery.MissingBlocksHonest | harness/include/fec.h:327-352 | with honest shards the recovered blocks are the sender's missing protected blocks, padding included |
| Recovery.RecoverStep | harness/include/fec.h:312-374 | a recovery attempt on honest shards with enough parity rows publishes exactly the missing frames, in order and each once, and completes the generation; with too few it does nothing |
| Recovery.DataStep | harness/include/fec.h:183-195 | an honest data shard is published and stored, which keeps the state honest, and then recovery is tried |
| Recovery.ParityStep | harness/include/fec.h:197-218 | an honest parity shard never conflicts and is stored, which keeps the state honest, and then recovery is tried |
| Runs.BuiltDatagrams | harness/include/fec.h:108-138 | the shards of the recovery theorem are those the encoder builds |
| Runs.ForeignLeavesSlot | harness/include/fec.h:180-206 | traffic for other slots, malformed shards and disagreeing closures leave the generation's slot alone |
| Runs.SolvableExactly | harness/include/fec.h:313-326 | recovery has enough rows exactly when the distinct shards that arrived number at least n and a frame is missing |
| Runs.ReceiveHonestData | harness/include/fec.h:183-195 | a data shard publishes its own frame, then the lacking frames if it makes enough, and nothing else |
| Runs.ReceiveHonestParity | harness/include/fec.h:197-218 | a parity shard publishes the lacking frames if it makes enough, and nothing else |
| Runs.ExpiryTracks | harness/include/fec.h:221-223 | an expiry less than a second after the generation's earliest shard leaves its slot alone |
| Runs.RunTracks | harness/include/fec.h:175-223 | after every schedule the slot holds exactly the shards that arrived, or every frame once they were enough, and every answer was exactly the expected one |
| Runs.AnyEnoughShardsRecover | harness/include/fec.h:175-374 | each honest shard is answered with exactly the expected frames; once any n distinct shards of a generation of n frames have arrived, in any order, with repeats, among other traffic and expiries too early for the generation, every frame was published byte for byte |
| Runs.RecoveredOnce | harness/include/fec.h:312-374 | over every schedule at most one answer recovers anything, and it recovers exactly the frames whose data shards have not arrived by then, in order and each once |
| Runs.ExpiresByFirstShard | harness/include/fec.h:221-223 | over every schedule a taken slot is dated by the generation's first shard, and the next expiry empties it if and only if that is a second ago |
| Runs.DatedFirst | harness/include/fec.h:290-301 | with a clock past zero that date is the time of the first honest shard of all |
| FecDecoder.TakeSlot | harness/include/fec.h:290-301 | the slot is active for the generation; what it holds of that generation is kept, and otherwise it starts with nothing received, dated now |
| FecDecoder.AbsentLoop | harness/include/fec.h:323 | the loop lists exactly the missing indices in order |
| FecDecoder.HeldLoop | harness/include/fec.h:324 | the loop lists exactly the held parity rows in order |
| FecDecoder.RightSideLoop | harness/include/fec.h:330-338 | a parity shard minus the received data, or a refusal when a block is too wide |
| FecDecoder.LengthsLoop | harness/include/fec.h:353-357 | all recovered lengths are legal |
| FecDecoder.PublishLoop | harness/include/fec.h:358-367 | frames are published and stored one by one until one is refused |
| FecDecoder.Recover | harness/include/fec.h:312-374 | the whole recovery attempt computes the specified step |
| FecDecoder.ConflictLoop | harness/include/fec.h:203-206 | the checks decide exactly whether a parity shard contradicts the generation |
| FecDecoder.WidthLoop | harness/include/fec.h:214-215 | the loop decides whether a held parity has another width |
| FecDecoder.DataArrives | harness/include/fec.h:186-195 | a data shard is handled as specified |
| FecDecoder.ParityArrives | harness/include/fec.h:201-218 | a parity shard is handled as specified |
| FecDecoder.Arrives | harness/include/fec.h:175-219 | a datagram is handled as specified; one that is no shard is published exactly if the callback accepts it and changes no slot |
| FecDecoder.Decoder.constructor | harness/include/fec.h:172 | a new decoder has empty slots, at least one |
| FecDecoder.Decoder.Expire | harness/include/fec.h:221-223 | no active generation a second old remains and every younger one is unchanged |
| FecDecoder.Decoder.Receive | harness/include/fec.h:175-219 | the decoder object moves as specified and keeps its invariant; a datagram that is no shard is published exactly if accepted |
| Dedupe.FirstGap | harness/include/dedupe_window.h:90-95 | the base moves to the first number not accepted |
| Dedupe.RunInv | harness/include/dedupe_window.h:32-61 | after every run accepted numbers lie in the window, given-up numbers have an observed number a window above, and counters agree |
| Dedupe.RunAccepted | harness/include/dedupe_window.h:53-60 | the remembered set is exactly the numbers whose verdict was an acceptance |
| Dedupe.AcceptedOnce | harness/include/dedupe_window.h:53-60 | no number is accepted twice in any run |
| Dedupe.Accounting | harness/include/dedupe_window.h:41-60 | base minus first number equals accepted numbers below the base plus lost ones; every call is counted once |
| Dedupe.RefusedExactly | harness/include/dedupe_window.h:33-50 | a number not yet accepted is refused if and only if it precedes the first one observed or trails one by a full window |
| Dedupe.RepeatsRefused | harness/include/dedupe_window.h:41-56 | an accepted number is answered as duplicate inside the window and too old below it |
| Dedupe.EveryFate | harness/include/dedupe_window.h:32-61 | every number shown is accepted at some time or was refused for one of the two reasons |
| Dedupe.KeptExactly | harness/include/dedupe_window.h:32-61 | over every run the numbers let through are those of a reference without a window: each that is neither a repeat of one let through, nor before the first, nor a full window behind one seen |
| Dedupe.VerdictExactly | harness/include/dedupe_window.h:41-60 | the next number is accepted if and only if that reference lets it through |
| Dedupe.AdvancedExactly | harness/include/dedupe_window.h:45-50 | an acceptance is answered as an advance if and only if it gives up a number that could still have been accepted |
| Dedupe.CountersExactly | harness/include/dedupe_window.h:37-52 | after every run the slide counter is the number of advances answered, and raw jump and reorder depth are the largest distances met |
| Dedupe.NoWrap | harness/include/dedupe_window.h:46-51 | numbers below 2^64 minus two windows keep the window's sums below 2^64 |
| Bitmap.TestSet | harness/include/dedupe_window.h:72-75 | setting one bit changes that bit only |
| Bitmap.TestClear | harness/include/dedupe_window.h:77-80 | clearing one bit changes that bit only |
| Bitmap.ShowsNext | harness/include/dedupe_window.h:82-95 | clearing the base bit and advancing keeps the bitmap in line with the set |
| Bitmap.ShowsAdded | harness/include/dedupe_window.h:57-58 | setting the bit of an accepted number keeps the bitmap in line with the set |
| Bitmap.Window.constructor | harness/include/dedupe_window.h:28-30 | a new window remembers nothing |
| Bitmap.Window.TestBit | harness/include/dedupe_window.h:67-70 | the bit of a number is read at its circular position |
| Bitmap.Window.SetBit | harness/include/dedupe_window.h:72-75 | that bit becomes set and every other bit stays as it was |
| Bitmap.Window.ClearBit | harness/include/dedupe_window.h:77-80 | that bit becomes clear and every other bit stays as it was |
| Bitmap.Window.SlideTo | harness/include/dedupe_window.h:82-88 | sliding counts exactly the numbers never accepted and keeps the refinement, over any distance |
| Bitmap.Window.AdvanceContiguous | harness/include/dedupe_window.h:90-95 | the loop ends and stops at the first gap |
| Bitmap.Window.Observe | harness/include/dedupe_window.h:32-61 | the bitmap answers and moves exactly as the set with a moving base |
| Bitmap.Window.Record | harness/include/dedupe_window.h:51-60 | a number in the window is recorded or answered as duplicate as the set would |
| Receiver.UnwrapWrap | harness/include/multiplex.h:16-25 | a wrapped body unwraps to its identity and bytes; a zero identity is refused |
| Receiver.UnwrapLayout | harness/include/multiplex.h:20-25 | an identity is found exactly behind "PFS3" in bytes 4 to 12 and 12 to 20, neither zero, and the body is the rest |
| Receiver.WrittenExactly | harness/src/receiver.cpp:229-245 | an admitted message is offered, and written whole exactly if its number passes: with suppression once and in time, without it if it exceeds every earlier number of its identity |
| Receiver.PublishedAdmitted | harness/include/fec.h:175-374 | the decoder publishes only frames its callback accepted, recovered ones included |
| Receiver.PublishFrameKeeps | harness/src/receiver.cpp:220-246 | publishing an admitted message keeps the ring free of repeats and in line with the stream's window |
| Receiver.ReactKeeps | harness/src/receiver.cpp:248-292 | every datagram and every expiry keeps the receiver's invariant |
| Receiver.PublishedOnce | harness/src/receiver.cpp:220-292 | over every sequence of datagrams no two published messages share stream, epoch and sequence number, with and without the window |
| Receiver.RingIsPassed | harness/src/receiver.cpp:229-245 | after every run the ring is the subsequence of the offered messages that pass, whole and in the order offered, with and without the window |
| Receiver.RingHolds | harness/src/receiver.cpp:229-245 | after every run a message is in the ring if and only if it was offered, equal in every field, at a point where its number passed |
| Receiver.PublishedExactly | harness/src/receiver.cpp:235-244 | the ring holds for each identity exactly the numbers the window accepts from those offered |
| Receiver.OfferedFate | harness/src/receiver.cpp:235-244 | every offered number is in the ring unless it was too old in one of the two exact senses |
| Receiver.EveryOfferSettled | harness/src/receiver.cpp:239-244 | every offered message is in the ring, or an earlier offered one with its identity and number is, or it was late when offered |
| Receiver.Ignored | harness/src/receiver.cpp:288-290 | a truncated datagram, one without an identity and a new identity at the limit change nothing |
| Receiver.NeverEvicted | harness/include/multiplex.h:32-47 | known identities are never dropped and the limit is never exceeded |
| Receiver.PublishOne | harness/src/receiver.cpp:226-246 | the callback on an admitted message updates stream and ring as specified (`Receiver.WrittenExactly` says which message is written) |
| Receiver.DeliverBody | harness/src/receiver.cpp:290-291 | one body goes through decoder, identity check, window and ring as specified |
| Receiver.Receiver.constructor | harness/src/receiver.cpp:202-204 | a new receiver knows no stream and has published nothing |
| Receiver.Receiver.Get | harness/include/multiplex.h:42-47 | an identity's stream is found, created and kept, or refused at the limit, and no other stream changes |
| Receiver.Receiver.OnDatagram | harness/src/receiver.cpp:286-291 | the dispatch of one datagram moves the receiver as specified and keeps its invariant |
| Receiver.Receiver.Expire | harness/src/receiver.cpp:249 | expiry resets exactly the old generations of every stream |
| Pipeline.DecoderFollows | harness/src/receiver.cpp:248-292 | an identity's decoder, from its creation on, runs on exactly the bodies addressed to it and on every expiry, and its window is offered exactly the messages it publishes, in order and nothing else |
| Pipeline.GenerationReachesRing | harness/src/receiver.cpp:248-292 | any n shards of a generation of a known or new identity, among any other traffic and expiries too early for the generation, have each of its messages offered; with the window on, each is in the ring whole, or an earlier one with its number is, or it was late |
| Pipeline.MessageIsNoShard | harness/include/fec.h:176-179 | an encoded message is never taken for a shard |
| Pipeline.MessageReachesRing | harness/src/receiver.cpp:286-292 | a valid message sent without erasure coding, wrapped for its known or new identity, becomes the last offered one, changes no decoder of any identity, and is written exactly if its number passes; with the window on its number is in the ring or it was late |
| Ring.WriterStepSlots | harness/include/shm_ring.h:153-158 | every writer step keeps each numbered slot holding the complete frame published under its number |
| Ring.WriterStepReaders | harness/include/shm_ring.h:153-173 | a writer step never changes the slot a reader is copying |
| Ring.WriterStepFollowers | harness/include/shm_ring.h:140-152 | a passed scan means every early reader is beyond the slot to be reused |
| Ring.EmptyIsRight | harness/include/shm_ring.h:162-164 | an empty answer means the index is unpublished or the writer died in that slot |
| Ring.LappedIsRight | harness/include/shm_ring.h:165-169 | a lapped answer means the index was overwritten |
| Ring.FollowerNotLapped | harness/include/shm_ring.h:161-169 | an early in-order reader never finds a newer number in its slot |
| Ring.ActKeeps | harness/include/shm_ring.h:89-174 | every step and every death of writer or reader keeps the ring's invariant |
| Ring.AnswersAreRight | harness/include/shm_ring.h:161-173 | under either policy, any interleaving and any deaths, an answered frame is exactly the one published under its index; empty, lapped and corrupt answers are right too, and corrupt never occurs |
| Ring.LogGrows | harness/include/shm_ring.h:153-158 | published frames never change |
| Ring.GiveUpLeaves | harness/include/shm_ring.h:148-149 | a writer that waits may give up, exactly at the end of a failed scan or at a held lock, and has published nothing |
| Ring.DetachLeaves | harness/include/shm_ring.h:121-123 | a detached reader is unregistered and no other reader or slot changes |
| Ring.ReaderDeathLeaves | harness/include/shm_ring.h:161-174 | a dead reader frees exactly the lock it held; its registration and cursor stay |
| Ring.FollowerReadsPrefix | harness/include/shm_ring.h:135-174 | with backpressure a reader registered before the ring first fills and reading 0, 1, 2, … is never lapped, reads a prefix of the log, and the writer stays within one lap of its cursor |
| Ring.LappedResumes | harness/include/shm_ring.h:165-169 | in every run a lapped read never resumes behind, resumes where it was only when the writer was dead between its stores of the frame one lap ahead, and skips only overwritten indices |
| Ring.ReadIsDecided | harness/include/shm_ring.h:161-169 | the state in which a read gets its slot decides its answer, whatever happens until then: it is lapped if and only if the slot was reused, and then resumes strictly ahead if and only if the writer had not died between its two stores of the frame one lap ahead |
| Ring.StallsForever | harness/include/shm_ring.h:157-158 | at most one index is stalled, it stays stalled through every step, and its slot keeps the number that laps every read of it |
| Ring.DeadWriterStalls | harness/include/shm_ring.h:157-158 | a run in which a writer dead between its two stores leaves a lapped reader where it was |
| Ring.SenderAccounting | harness/src/sender.cpp:634-652 | in every run a sender starting at 0 has read index equal to sent plus skipped, and each index it passed was sent as published or overwritten |
| Ring.KeepTally | harness/src/sender.cpp:630-660 | the loop keeps read index, sent and skipped as specified |
| SharedRing.PublishRuns | harness/include/shm_ring.h:153-158 | the locked part of publish, run alone, ends with the whole frame in place, numbered and counted |
| SharedRing.AdmittedRuns | harness/include/shm_ring.h:135-159 | scan and store, run alone, are a sequence of the machine's writer steps |
| SharedRing.RefusedWaits | harness/include/shm_ring.h:136-153 | a publish that may not proceed never does while nothing else moves, for any number of writer steps: no reader or one a lap behind, a held lock, an illegal length |
| SharedRing.ReadRuns | harness/include/shm_ring.h:161-174 | read, run alone, is a sequence of the machine's reader steps and answers from the slot |
| SharedRing.SharedRing.constructor | harness/include/shm_ring.h:95-106 | a new ring is the machine's start state |
| SharedRing.SharedRing.Clear | harness/include/shm_ring.h:142-147 | the registry scan passes exactly when some reader is registered and none is a lap behind |
| SharedRing.SharedRing.Publish | harness/include/shm_ring.h:135-159 | publish succeeds exactly when length, registry and lock allow it, appends the frame to the log, and otherwise changes nothing |
| SharedRing.SharedRing.Read | harness/include/shm_ring.h:161-174 | read returns status, frame and resume index of the machine's answer and moves the cursor only on success |
| SharedRing.CopyIn | harness/include/shm_ring.h:157 | copying in overwrites exactly the first bytes of the slot |
| SharedRing.CopyOut | harness/include/shm_ring.h:171 | copying out returns exactly the first bytes of the slot |
| Durable.EnqueueOk | scripts/durable_relay.py:62-70 | enqueueing keeps ids rising and the byte count exact and within the limit |
| Durable.AcceptOk | scripts/durable_relay.py:72-90 | accepting keeps the same invariant and the session limit |
| Durable.EnqueueReplies | scripts/durable_relay.py:62-70 | stored if and only if the payload is legal, ids are left and the bytes fit; otherwise the reply names the cause and nothing changes |
| Durable.AcceptReplies | scripts/durable_relay.py:72-90 | each reply is given only for its cause: repeat, gap, session limit, full; stored exactly as the next of its session, and no other mark moves |
| Durable.RetireOk | scripts/durable_relay.py:96-98 | retiring removes the id and takes its bytes off the count |
| Durable.RetireFirst | scripts/durable_relay.py:92-98 | retiring the first row leaves the others in order |
| Durable.Store.constructor | scripts/durable_relay.py:35-49 | a new store is empty |
| Durable.Store.Enqueue | scripts/durable_relay.py:62-70 | commits under the next id, or reports an illegal payload or a full spool and changes nothing |
| Durable.Store.Accept | scripts/durable_relay.py:72-90 | commits the next sequence, answers repeats, and reports illegal frames, gaps, too many sessions and a full inbox without change |
| Durable.Store.First | scripts/durable_relay.py:92-94 | returns the row with the smallest id, none exactly when nothing is pending |
| Durable.Store.Retire | scripts/durable_relay.py:96-98 | deletes exactly the row with the id, if present |
| Relay.MovedOk | scripts/durable_relay.py:137-179 | every sender step, crash included, keeps outbox and high-water mark in line and retires only what the inbox holds |
| Relay.FrameMeetsMark | scripts/durable_relay.py:76-81 | a frame on the network is at most one past the mark, and there it is the next payload |
| Relay.AcceptKeeps | scripts/durable_relay.py:284-298 | accepting any frame on the network keeps the protocol invariant |
| Relay.DeliveryKeeps | scripts/durable_relay.py:239-259 | every delivery step keeps inbox and delivery invariants |
| Relay.StepKeeps | scripts/durable_relay.py:137-298 | every step of any party keeps the protocol invariant |
| Relay.AcceptedIsPrefix | scripts/durable_relay.py:72-90 | over every run the payloads accepted for a session are a prefix of those committed to its outbox, in order and each once, counted by the mark |
| Relay.AcknowledgedIsSafe | scripts/durable_relay.py:201-214 | over every run a locally acknowledged payload is in the outbox or accepted at its place |
| Relay.MarkFollowsOutbox | scripts/durable_relay.py:142-163 | in every reachable state the mark is the first unretired id or that minus one, the last id issued when the outbox is empty |
| Relay.NoGap | scripts/durable_relay.py:80-81 | the gap error never fired and no frame ever sent can make it fire |
| Relay.IngressCommits | scripts/durable_relay.py:201-214 | a local payload that fits is committed as the next one, and otherwise nothing changes |
| Relay.LocalAckAcknowledges | scripts/durable_relay.py:214 | the local acknowledgement is for the payload just committed |
| Relay.RepeatIsAcknowledged | scripts/durable_relay.py:297-298 | a frame accepted before changes nothing in the inbox and is acknowledged again |
| Relay.NextIsAccepted | scripts/durable_relay.py:297-298 | the next frame of a session is stored if there is room, and otherwise nothing changes |
| Relay.SendsFirstRow | scripts/durable_relay.py:142-159 | from every reachable state a reconnect, a read and a send put the first pending row on the network |
| Relay.ExchangeCompletes | scripts/durable_relay.py:142-163 | from every reachable state an undisturbed exchange has the first pending row accepted, acknowledged and retired, if the inbox held it or has room |
| Relay.DeliveryCompletes | scripts/durable_relay.py:240-252 | an undisturbed delivery publishes, confirms and retires the first inbox row |
| Relay.SenderCrashKeepsCommitted | scripts/durable_relay.py:132-229 | a sender crash keeps the store and forgets the exchange and the local acknowledgement owed |
| Relay.InboxCrashKeepsRows | scripts/durable_relay.py:231-298 | an inbox crash keeps every accepted row and no confirmation of an old connection counts |
| Relay.OtherAckRestarts | scripts/durable_relay.py:160-167 | an acknowledgement for another row ends the exchange and retires nothing |
| Relay.LossLeavesRow | scripts/durable_relay.py:249-256 | a frame lost on the local link or not taken leaves its row in the inbox |
| Relay.PublishedInOrder | scripts/durable_relay.py:239-259 | published row ids start at 1, never decrease and never skip, so repeats are adjacent; each is the accepted row |
| Relay.RetiredWasPublished | scripts/durable_relay.py:248-252 | every row retired from the inbox was published and its publication acknowledged |
| Relay.EndToEnd | scripts/durable_relay.py:137-298 | what the local receiver took, repeats removed, is for each session a prefix of what its sender committed |
| Fanout.StepKeeps | harness/src/sender.cpp:367-409 | every critical section keeps a destination's books |
| Fanout.FlushedIsPrefix | harness/src/sender.cpp:367-409 | at every moment flushed batches are a prefix of offered ones, queued bytes are exact and bounded, and rejected frames are those of all other batches |
| Fanout.FinishedAccounts | harness/src/sender.cpp:410-429 | once the worker left, rejected equals the frames of all batches not flushed, none if it did not fail |
| Fanout.Isolated | harness/src/sender.cpp:348-409 | a destination ends where it would have without the others |
| Fanout.SameBatches | harness/src/sender.cpp:367-429 | over every interleaving of the producer's loops with all workers each destination flushes a prefix of the same batches in the same order, every worker that left without failing all of them, and after finish the rest is counted as rejected |
| Fanout.FailsExactly | harness/src/sender.cpp:379-401 | over every interleaving a destination has failed if and only if one of its sends failed or a batch came when the bytes queued and its own exceeded the limit |
| Fanout.NeverFails | harness/src/sender.cpp:394-406 | a destination whose sends succeed and whose limit covers all batches never fails, rejects nothing, and its worker leaves only with every batch flushed |
| Fanout.Drains | harness/src/sender.cpp:368-387 | a healthy worker left alone sends everything queued, oldest first |
| Fanout.DrainsAndLeaves | harness/src/sender.cpp:368-387 | told to finish, it then leaves with every offered batch flushed |
| Fanout.FailedSendEnds | harness/src/sender.cpp:379-386 | after a failed send the worker is gone with an empty queue |
| Fanout.GoneStays | harness/src/sender.cpp:368-406 | from then on nothing is flushed, whatever is offered |
| Fanout.Fail | harness/src/sender.cpp:380-383 | failing counts the frames of the failed batch and of every queued one |
| Fanout.Enqueued | harness/src/sender.cpp:394-406 | the loop body of enqueue does what offering a batch specifies |
| Fanout.Fanout.constructor | harness/src/sender.cpp:363-366 | all destinations start idle |
| Fanout.Fanout.Enqueue | harness/src/sender.cpp:391-409 | every destination is offered the batch |
| Fanout.Fanout.TakeWork | harness/src/sender.cpp:370-376 | a batch is taken if and only if the worker has not left, the destination has not failed and something is queued, and it is the oldest |
| Fanout.Fanout.Flushed | harness/src/sender.cpp:379-386 | a flush result is recorded for its destination only |
| Fanout.Fanout.Finish | harness/src/sender.cpp:412-415 | every destination is told to finish |
| Fanout.Fanout.AllOk | harness/src/sender.cpp:416-428 | after all workers left the answer is true exactly when every batch was flushed everywhere |

## Left out

- Sockets, TLS, Unix streams, shared-memory mapping, signals, command lines and process supervision: input and output around the modelled logic.
- Wall-clock deadlines and progress: a blocked publish or lock may give up at its deadline, nothing is claimed about when.
- Telemetry: recovery latencies, percentiles, unrecoverable-generation counts and packet totals; the echo mode of the receiver.
- Generation slots that two live generations share, a generation whose shards arrive over a second or more, and wrap-around of generation ids: assumptions of the recovery theorem (the slot is free or held by the generation; every expiry comes less than a second after the earliest time of the generation's shards).
- A clock that runs backwards, for which the unsigned subtraction in `expire` would wrap.
- The 64-bit wrap-around of indices, cursors and sequence numbers: outside `Dedupe.NoWrap` numbers are unbounded.
- Weak memory order: ring steps are sequentially consistent, which is what its locks and acquire/release accesses provide for the modelled data.
- A robust mutex that cannot be made consistent again: taking a dead owner's lock always succeeds.
- Padding bytes of native messages and the sign of `char` on other platforms: fields are values of their declared types with signed one-byte characters.
- SQLite: each store method is one committed transaction, ids are 1, 2, 3, …, both databases survive, and an exhausted id space is reported like a full spool.
- Relay peers that are not honest: sessions of the inbox belong to modelled senders; a receiver of another protocol version is not modelled.
- Receiver.Receiver.OnDatagram: keeps each stream's decoder and window as values in a map rather than as objects; `FecDecoder.Decoder` and `Bitmap.Window` are the objects, proved against the same specifications.
- SharedRing.SharedRing.Publish: runs without interference, so it gives up at once where the source scans again and waits for its deadline, and writes its slot in one assignment; waiting, giving up, the order of its stores and every interleaving are in `Ring`.
- Fanout.Fanout.Flushed: sending itself is the argument `ok`; frames of a batch that failed part way count as rejected although some may have been sent.
- Fec.Encoder.constructor: the limits on k and parity that the source enforces by an exception are a precondition.
- Bitmap.Window.constructor: the size check that ends the process is a precondition, stated for any multiple of 64.
- Attaching readers take any free registry entry rather than the first one, and the 64-entry limit error is not modelled.
