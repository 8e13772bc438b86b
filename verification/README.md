# Shardstore: a model of the erasure-coded object store

An object is cut into stripes, every stripe becomes k data and m parity shards, and shards live in a shard store, in
memory or on disk. Reading never needs the marker: it takes the stripe count from the listing and the size from one
valid header, drops missing and checksum-failed shards, and reconstructs from any k that are left. The project models
that path from bits to whole runs, in `internal/ec` and `internal/storage`.

How the files build on each other:

- `Bytes`, `Gf256`, `Polynomial`, `ReedSolomon`: bytes, the field of 256 elements (all its laws proved, none assumed),
  interpolation, and the code. Every byte column of a stripe is the list of values at points 0 to k-1 of one polynomial of
  degree below k; shard j holds its value at point j. The Reed-Solomon library is not part of this repository; this code
  is what the model puts in its place, and "any k shards suffice" is a theorem about it.
- `ErasureCoding`: the encoder, with data shards as windows into the caller's buffer, reconstruction in place, joining.
- `Types`, `Header`, `FileNames`, `Listing`, `StoreModel`: keys, binary formats, file names, the order of keys, and the
  meaning of the shard store operations. `Arithmetic` has the quotients that digits need.
- `MemStore`, `FileStore`, `ShardStore`, `StoreRefinement`: the two stores as classes over the same meaning, the
  interface as a choice between them, and their agreement on every sequence of operations and faults. `StoreLaws` says
  what a client of either observes.
- `ObjectModel`, `ObjectStore`: what put, open, read and delete mean, and the methods that do it.
- `Placement`, `Recovery`, `Tolerance`, `Reading`, `Durability`, `Readers`, `Streaming`, `Overwriting`, `FailedPuts`,
  `Runs`, `Overhead`: the theorems about stored objects under faults, overwriting, deletion and puts cut short, for single states, for readers
  at work and for whole runs.
- `EndToEnd`: clients that perform runs through the methods, and read while faults go on.
- `SnapshotReads`, `EncoderCache`: concurrent gets and puts, and the shared encoder cache, as state machines.

SHA-256 is an arbitrary function `hash`, a field of each store and of `Config`; nothing is assumed of it. A corrupt
shard is one whose payload does not hash to the checksum in its header. Between operations, and a call of a reader's Read
is one, faults may delete any shard, or replace a payload by one as long with another hash. While an object is read,
other objects may be put and deleted.

A store outlives the process, which may be started again with other flags, so a writer and a reader each have a `Config` of
their own: data and parity shards and the stripe size; only the hash is the same. In the theorems `c` is the configuration
that an object was put under, and `d` the reader's. The code compares neither: a load uses the reader's parameters and never
those in the headers (object.go:242-279). `Suits(d, c)` says that the reader counts on no fewer data shards than the writer;
any header tells. In `Runs` every put has its own configuration. `Overwriting` and `FailedPuts` read under the flags of the
last put, except `PutReadsBackUnder`; the older object in `Overwriting` may have been put under others.

The disk store is used with object ids that do not share a directory (`DirsDistinct`). The events of `Runs` are performed by
the methods: `EndToEnd.PerformRun` takes either store through a run by `PutObject`, `DeleteObject`, `DeleteShard` and `Rot`,
and ends in the state that `Runs.After` gives; `EndToEnd.RunThenRead` then opens an object and reads it while the run goes on.
A context is live for ever or for some number of checks, of which the disk store makes one for every shard.

Properties one might expect that the code does not have, each with its exact condition:

- A reader with fewer data shards than the writer gives wrong bytes without an error: a one-byte object without its first
  shard reads as a zero byte (`WrongByte`). A reader never gives a wrong byte if and only if it counts on as many data shards
  as the writer or more (`NeverWrongExactly`); such a reader reads a stripe back if and only if as many shards are valid,
  among those it knows of, as it counts data shards (`StripeReadsBack`), so a fresh object if and only if as many were
  written (`PutReadsBackUnder`). The stripe size does not matter to what is read (`AnyStripeSize`), but the size
  announced under another stripe size S' is right if and only if (t-1)(S'-S) is a multiple of 2^64 (`AnnouncedSize`).
- A read that ends without an error may lack bytes. It ends so if and only if every stripe that the listing shows is
  recoverable, and then it is complete if and only if the listing shows all stripes: shards of the last one, valid or
  not, must be listed (`TruncatesSilently`, `LastListedIsAll`).
- The size announced at opening, under the same stripe size, may be wrong. It is that of the object if and only if the listing shows all stripes or
  none, and that of the bytes then read if and only if the listing shows some stripe or the object is empty
  (`AnnouncedSize`); an object all of whose shards are gone keeps its size and reads as empty (`VanishedReadsEmpty`).
- Putting over an object leaves the old higher stripes; the new bytes are read back if and only if the listing showed no
  more stripes than they have (`OverwriteReadsBack`). Otherwise the stale stripes are read after the new bytes, as if they
  were part of the object (`StaleIsRead`).
- A put that fails leaves what it has stored. A new object whose input ran short reads, without an error, as its full
  stripes if there is one (`ShortPutReads`); one whose context was cancelled fails to read if and only if its last begun
  stripe has fewer shards than k (`StoppedPutReads`).
- An object of more than (2^32-1) stripes is stored but reads as empty or not at all (`CounterLimit`).
- `DeleteObject` with the empty id removes the shards of every object, since an empty id lists them all; deletes spare
  other objects if and only if the id is not empty or there is nothing else (`DeleteSparesOthers`).
- Reconstructing from no shards at all succeeds and restores nothing (`AnyKSuffice`).

## Model

| member | source | states |
|---|---|---|
| Gf256.MulAssoc | internal/ec/ec.go:3-9 | multiplication of the code's byte field is associative |
| Gf256.MulAdd | internal/ec/ec.go:3-9 | multiplication distributes over exclusive or, on both sides |
| Gf256.MulComm | internal/ec/ec.go:3-9 | multiplication is commutative |
| Gf256.MulInv | internal/ec/ec.go:3-9 | every byte but zero has a multiplicative inverse, its 254th power |
| Bytes.ToIntIs | internal/storage/header.go:58-62 | the value of a byte by the weights of its bits |
| Polynomial.AtOfPolynomial | internal/ec/ec.go:3-5 | interpolation through enough distinct points is exact on every polynomial of low degree |
| Polynomial.AnyPoints | internal/ec/ec.go:3-5 | any k or more distinct points of a polynomial of degree below k determine its value at every point |
| ReedSolomon.EnoughPoints | internal/ec/ec.go:50-51 | there is a distinct point for every shard exactly up to 256 shards |
| ReedSolomon.CellIsValue | internal/ec/ec.go:91-95 | the code is systematic: data bytes lie on the column's polynomial too |
| ReedSolomon.AnyKRebuild | internal/ec/ec.go:3-5 | any k survivors of a stripe, or more of them, whichever they are, give every shard |
| ReedSolomon.SplitSizeCovers | internal/ec/ec.go:82-89 | k shards of the split size hold n bytes with at most k-1 bytes of padding; the size is zero only for an empty stripe |
| ReedSolomon.CeilDivFormula | internal/ec/ec.go:82-89 | splitting and counting by ceiling agree with the rounding-up division (n + k - 1) / k, also for zero bytes |
| ReedSolomon.JoinEncoded | internal/ec/ec.go:160-168 | the joined data shards of an encoded stripe, and of as many more shards as a reader takes for data, begin with the stripe |
| ErasureCoding.AnyKSuffice | internal/ec/ec.go:115-128 | for a decoder that counts on no fewer data shards than the encoder did: with that many survivors reconstruction is complete and joining gives the stripe; with fewer it fails, with none it changes nothing |
| ErasureCoding.FaultMatrix | internal/ec/ec.go:38-42 | encode in k+m shards, lose any m of them or fewer, reconstruct, join: the stripe comes back, for every length and scheme |
| ErasureCoding.ReconstructedFails | internal/ec/ec.go:115-128 | reconstruction fails exactly on shards of different sizes and on some but fewer than k, and with which error |
| ErasureCoding.EncoderForExactly | internal/ec/ec.go:44-68 | there is an encoder exactly for one data and one parity shard at least and 256 in all, that is, as long as every shard has a point of its own |
| ErasureCoding.Encoder.Encode | internal/ec/ec.go:91-113 | returns k+m shards of the stripe, in fresh memory or in windows into the caller's buffer, whose spare capacity behind the stripe may be overwritten; the stripe itself stays |
| ErasureCoding.Encoder.Reconstruct | internal/ec/ec.go:115-128 | fills lost shards in place as specified, or reports the error and leaves the shards alone |
| ErasureCoding.Encoder.ReconstructSome | internal/ec/ec.go:139-148 | clears the shards not marked present and reconstructs the rest from them |
| ErasureCoding.Encoder.Join | internal/ec/ec.go:160-168 | overwrites the destination with exactly the first size bytes of the data shards, or reports too little data |
| ErasureCoding.AllEmpty | internal/ec/ec.go:130-137 | true if and only if no shard has a byte |
| Header.IntegerRoundTrip | internal/storage/header.go:78-89 | a little-endian integer of any width decodes to itself |
| Header.DecodeEncoded | internal/storage/header.go:63-141 | decoding an encoded header and any payload gives the header back and leaves exactly the payload |
| Header.EncodeDecoded | internal/storage/header.go:93-141 | whatever decodes is the encoding of the decoded header followed by the rest |
| Header.EncodeShardHeader | internal/storage/header.go:58-91 | succeeds exactly on ids of 1 to 65535 bytes and shard counts of at least 1, and writes every field at its place: magic, version, id by its length, then the seven fields in order, least significant byte first, lengths in two's complement |
| Header.LayoutExactly | internal/storage/header.go:58-62 | the layout of a header is the one sequence of bytes with these values at these places |
| Header.DecodeShardHeader | internal/storage/header.go:93-141 | reads field by field and agrees with decoding by offsets, in header, rest and errors; what it accepts has the header's bytes at their places in front |
| Header.EncodeObjectMeta | internal/storage/header.go:152-161 | writes magic, version, size, stripes and the low 16 bits of the shard counts, each at its place |
| Header.MarkerLayoutExactly | internal/storage/header.go:152-161 | the layout of a marker is the one sequence of bytes with these values at these places |
| Header.DecodeObjectMeta | internal/storage/header.go:163-197 | succeeds if and only if the bytes begin with a marker's layout, and gives that marker with shard counts of 16 bits |
| Header.ParseMarkerLayout | internal/storage/header.go:152-197 | an encoded marker decodes to itself up to the low 16 bits of its shard counts |
| FileNames.ParseGenerated | internal/storage/store.go:300-319 | parsing a generated shard file name gives back stripe and shard index for every pair of uint32 values |
| FileNames.GeneratedNamesDiffer | internal/storage/store.go:76-78 | different shards of an object have different file names |
| FileNames.NameIs | internal/storage/store.go:76-78 | the name is the stripe in eight hexadecimal digits, a dash, the shard in decimal without leading zeros, and .shard |
| Listing.KeyLessIs | internal/storage/store.go:402-410 | keys go by object id, decided by the first differing byte or the end of the shorter, then by stripe, then by shard |
| Listing.KeyLessTransitive | internal/storage/store.go:402-410 | the three-key order is transitive |
| Listing.KeyLessConnected | internal/storage/store.go:402-410 | of two different keys exactly one comes first |
| Listing.ListingUnique | internal/storage/store.go:213-222 | a set of keys has one strictly increasing listing |
| Listing.SortKeys | internal/storage/store.go:402-411 | sorting distinct keys gives their listing |
| Listing.FilterKeys | internal/storage/store.go:414-426 | the listing of an object is the listing of its keys, of all keys for the empty id |
| Listing.LastHasMaxStripe | internal/storage/object.go:122-128 | the last key of an object's listing carries its highest stripe |
| MemStores.MemStore.PutShard | internal/storage/store.go:341-355 | stores a stamped header with a fresh copy of the payload, or refuses and changes nothing |
| MemStores.MemStore.GetShard | internal/storage/store.go:357-370 | missing if and only if the key is not stored, corrupt with the stored header if and only if the payload does not hash to its checksum, the stored pair otherwise |
| MemStores.MemStore.VerifyShard | internal/storage/store.go:372-383 | the same three cases, with the header in place of the pair |
| MemStores.MemStore.DeleteShard | internal/storage/store.go:385-393 | removes exactly that shard, or reports it missing |
| MemStores.MemStore.ListShards | internal/storage/store.go:395-412 | the listing of the stored keys, whatever order the map is visited in |
| MemStores.MemStore.Rot | internal/storage/object_test.go:354-369 | the fault: a payload is replaced by one as long, the header stays |
| FileStores.ShardPathsDiffer | internal/storage/store.go:69-82 | keys of ids with distinct directories have distinct paths |
| FileStores.PathsAre | internal/storage/store.go:69-82 | where shards and markers lie: the directory of the object, the stripe before the shard in the name, .meta |
| FileStores.SameDirExactly | internal/storage/store.go:69-74 | two ids share a directory if and only if the first 20 bytes of their hashes agree |
| FileStores.FilesDetermineState | internal/storage/store.go:53-58 | the files stand for one store only: equal bytes, equal shards and markers |
| FileStores.FileStore.PutShard | internal/storage/store.go:84-122 | as in memory, and refuses a cancelled context and headers the format cannot carry; the file is the header's bytes at their places and then the payload |
| FileStores.FileStore.GetShard | internal/storage/store.go:124-149 | decodes header and payload from the file; missing if and only if the key is not stored, corrupt with the stored header if and only if the payload does not hash to its checksum, the stored pair otherwise |
| FileStores.FileStore.VerifyShard | internal/storage/store.go:151-175 | decodes header and payload from the file; the same three cases, with the header in place of the pair |
| FileStores.FileStore.DeleteShard | internal/storage/store.go:177-186 | removes exactly that shard's file, or reports it missing |
| FileStores.FileStore.ListShards | internal/storage/store.go:188-223 | the listing of the stored keys, indices taken from names and ids from headers, with no error |
| FileStores.FileStore.ListObjectShards | internal/storage/store.go:286-298 | the listing of one object's keys |
| FileStores.FileStore.ResolveObjectID | internal/storage/store.go:225-238 | the object id of the header in a file, or the decoding error |
| FileStores.FileStore.WriteMarker | internal/storage/store.go:240-262 | the marker is stored with its shard counts cut to 16 bits, its bytes at their places; nothing else changes |
| FileStores.FileStore.ReadMarker | internal/storage/store.go:264-273 | the stored marker, or object not found |
| FileStores.FileStore.RemoveMarker | internal/storage/store.go:275-284 | the marker is gone; a missing one is no error |
| ShardStores.ShardStore.PutShard | internal/storage/store.go:33-51 | one contract for both stores: which error if any, and the exact new contents |
| StoreRefinement.AnswersAgree | internal/storage/store.go:33-51 | the answer to an operation is determined by the contents |
| StoreRefinement.Perform | internal/storage/store.go:33-51 | either store performs every operation with the specified answer and effect |
| StoreRefinement.Lockstep | internal/storage/store.go:84-298 | every sequence of operations and faults gets the same answers from disk and memory and leaves the same contents |
| StoreLaws.GetAfterPut | internal/storage/store.go:33-51 | which error a put answers; after one that succeeds, a get answers the bytes with the header and their checksum, and gets of other keys what they did |
| StoreLaws.RotIsSeen | internal/storage/object_test.go:354-369 | after a put and rot to another hash, get and verify answer corrupt with the header that was put |
| StoreLaws.DeletedIsMissing | internal/storage/store.go:385-393 | a deleted shard is missing to a get and to another delete; deleting a missing one says so and changes nothing |
| StoreLaws.ListedIsStored | internal/storage/store.go:395-412 | the listing names exactly the shards that a get does not call missing |
| StoreLaws.ObjectListing | internal/storage/store.go:414-426 | an object's listing is its part of the whole one, the whole one for the empty id |
| StoreLaws.MarkerIsKept | internal/storage/store.go:240-284 | a marker written is read back, one removed is not found, and other markers stay |
| ReedSolomon.CeilDivBounds | internal/storage/object.go:55-71 | the number of stripes is the one that reaches n bytes and no further, zero only for none |
| ObjectModel.AfterStripe | internal/storage/object.go:58-71 | after each stripe the object is used up at its count, or the stripe was full |
| Durability.PrefixGrows | internal/storage/object.go:58-71 | stripe t is exactly the bytes between those of t and of t+1 stripes |
| Placement.CutLength | internal/storage/object.go:58-71 | no stripe is empty, all but the last are full, and the last ends the object |
| ObjectStores.InputReader.ReadFull | internal/storage/object.go:63-65 | fills the buffer from the input, or reports a short input |
| ObjectStores.ObjectStore.constructor | internal/storage/object.go:29-35 | a stripe size that is not positive becomes 8 MiB |
| ObjectStores.ObjectStore.PutObject | internal/storage/object.go:40-78 | for every input, and a context cancelled after any number of checks: which error, the shard store's own included, and the exact contents left, to the shard; after a put that fits, every shard's header describes it |
| ObjectModel.PutPartIs | internal/storage/object.go:55-100 | what is left after n shards is all of the full stripes and the first shards of the next |
| ObjectModel.AvailableAt | internal/storage/object.go:58-65 | whether the input has another stripe in full |
| ObjectStores.ObjectStore.StoreStripes | internal/storage/object.go:55-71 | although one buffer is reused, and encoding may write into its spare part, all earlier stripes keep their contents; the counter wraps at 32 bits; a cancelled put leaves exactly the shards before the cancellation |
| ObjectStores.ObjectStore.PutStripe | internal/storage/object.go:80-100 | stores the shards of a stripe in order, all of them or those before the one that is turned away; each header names its key, the scheme, the stripe's length, the payload's, and the payload's checksum |
| ObjectStores.ObjectStore.GetObject | internal/storage/object.go:102-147 | opens by listing, highest stripe and last length; only when nothing is listed does the marker count; called on all parameters and stores but those on which the code panics |
| ObjectStores.ObjectStore.LastStripeLen | internal/storage/object.go:158-172 | the length in the first valid header of a stripe, or unrecoverable, for any parameters |
| ObjectStores.HighestStripe | internal/storage/object.go:122-127 | the maximum stripe index of the listed keys |
| ObjectStores.ObjectStore.ObjectShards | internal/storage/object.go:174-187 | the listing, or not found exactly when there is neither shard nor marker |
| ObjectStores.ObjectStore.DeleteObject | internal/storage/object.go:189-201 | removes all listed shards and the marker and never fails |
| ObjectStores.ObjectReader.Read | internal/storage/object.go:219-240 | one step of the streaming specification: bytes, status, new cursor and buffer; buffered bytes are served whatever the store has come to; the rest of the caller's buffer is untouched |
| ObjectStores.ObjectReader.LoadStripe | internal/storage/object.go:242-279 | buffers the stripe as specified, or reports the error and keeps its state, unless the length to allocate is negative |
| Placement.PutStripesAt | internal/storage/object.go:55-100 | a put of t stripes leaves exactly their shards under exactly their keys, everything else as it was |
| Placement.PutCompletes | internal/storage/object.go:40-78 | after a put the object is complete; nothing else of it is left if and only if nothing lay beyond its stripes |
| Placement.PutIsDescribed | internal/storage/object.go:85-98 | after a put every one of the k+m shards of every stripe is there, and its header has its own indices, the writer's scheme, the stripe's and the payload's length and the checksum |
| Placement.DataInPlace | internal/ec/ec.go:91-113 | the data shards hold the object's bytes in their order, padded with zeros, at the rounded-up length |
| Placement.MarkerAfterPut | internal/storage/object.go:73-77 | the marker states size, scheme and the number of stripes that reaches the size |
| Recovery.StripeReadsBack | internal/storage/object.go:242-279 | under a reader's own parameters, with no fewer data shards than the writer's: a stripe reads back as it was put if that many shards are valid, and is unrecoverable otherwise |
| Recovery.FirstLengthIs | internal/storage/object.go:158-172 | one valid shard, among those the reader knows of, is enough and necessary to learn the stripe's length |
| Recovery.FirstLengthIsFirst | internal/storage/object.go:158-172 | over any contents, opening takes the length in the valid header of the lowest shard index |
| Recovery.LengthSeenIsLast | internal/storage/object.go:249-262 | over any contents, loading takes the one of the highest |
| Reading.ChunksDeliver | internal/storage/object.go:219-240 | over any contents that do not change, and for every sequence of buffer sizes, the output is what lies between the cursors, and a prefix of what was to come |
| Reading.StepAdvances | internal/storage/object.go:219-240 | a call with a real buffer hands out at least one byte of what comes next, or ends the stream, or fails |
| Reading.ChunksReachTheEnd | internal/storage/object.go:219-240 | enough calls of any sizes give what reading at once gives, and end the same way |
| Reading.EmptyStripeEnds | internal/storage/object.go:223-231 | an empty stripe ends the stream, and a further call goes on behind it |
| Durability.OpenEroded | internal/storage/object.go:102-147 | what opening an eroded object answers under any flags, in each case of what is listed and valid |
| Durability.ReadsBackExactly | internal/storage/object.go:102-147 | a reader with no fewer data shards than the writer reads an object back in full if and only if every stripe has at least as many valid shards |
| Tolerance.ToleratesParity | internal/storage/object.go:102-105 | whatever faults befall an object that was put, it reads back if and only if no stripe has more than m of its k+m shards lost or rotten |
| Durability.NeverAWrongByte | internal/storage/object.go:15-18 | for such a reader: whatever is lost or rotten, what is read is a prefix of the object and the only error is unrecoverable |
| Durability.AllOrError | internal/storage/object.go:158-279 | for such a reader, while the last stripe has a listed shard: all bytes, or an error after exactly the stripes before the first lost one |
| Durability.TruncatesSilently | internal/storage/object.go:122-147 | for such a reader: a read ends without an error if and only if all visible stripes are recoverable, and then has all the bytes if and only if all stripes are visible |
| Durability.LastListedIsAll | internal/storage/object.go:122-128 | all stripes are visible if and only if the last one has a listed shard, or there are none |
| Durability.AnnouncedSize | internal/storage/object_test.go:40-54 | under any stripe size of the reader: exactly when the size answered by opening is that of the bytes then read, and under the writer's, exactly when it is that of the object |
| Durability.SizeWithoutMarker | internal/storage/object.go:122-136 | with a valid shard of the last stripe, the stripe count found is the one put and in the marker; so is the size if and only if the stripe sizes agree |
| Durability.VanishedReadsEmpty | internal/storage/object.go:111-120 | an object opens by its marker, with its size and no bytes, if and only if no shard of it is left |
| Readers.FewerDataShards | internal/ec/ec.go:115-168 | for every k and every decoder with fewer data shards: the one-byte stripe without its first shard is decoded to another byte, and without an error |
| Readers.WrongByte | internal/storage/object.go:242-279 | so every reader with fewer data shards than the writer reads some eroded object wrongly and reports no error |
| Readers.NeverWrongExactly | internal/storage/object.go:15-22 | over all objects and erosions, a reader gives a prefix or an error if and only if it counts on no fewer data shards than the writer |
| Readers.AnyStripeSize | internal/storage/object.go:203-279 | what is read, of any object in any store, does not depend on the reader's stripe size |
| Streaming.StepOfEroded | internal/storage/object.go:219-279 | one call, by a reader with no fewer data shards than the writer, on an object that has eroded further since the last: it fails exactly when it must load a stripe not recoverable at that moment, ends exactly after the last stripe, and else hands out the next bytes |
| Streaming.DrainOfEroded | internal/storage/object.go:203-279 | for every sequence of calls and of erosions between them: what has been handed out is the data up to the cursor |
| Streaming.StreamsThroughFaults | internal/storage/object.go:15-22 | a reader under ongoing faults receives a prefix; the end comes only after all its stripes, an error only at a stripe lost by then, and one of the two comes |
| Overwriting.PutReadsBack | internal/storage/object.go:40-78 | with no stripe listed beyond its own, a put is read back, whatever else the store held of the object |
| Overwriting.PutReadsBackUnder | internal/storage/object.go:40-147 | with nothing else of the object left, a reader with no fewer data shards reads a put back if and only if as many shards were written |
| Overwriting.ReadAfterPut | internal/storage/object.go:40-147 | over any contents whatsoever: what is read after a put is the new bytes and then the stripes that were listed beyond them |
| Overwriting.StaleIsRead | internal/storage/object.go:55-77 | over an eroded object with more visible stripes: the new bytes, then the older object's bytes from the stripe behind them on, up to a stripe that cannot be recovered |
| Overwriting.OverwriteReadsBack | internal/storage/object.go:55-77 | over an object in whatever state of erosion, put under whatever flags, the new bytes are read back if and only if no more stripes were visible than they have |
| Overwriting.OverwriteComplete | internal/storage/object.go:55-77 | over a complete object they are read back if and only if they have no fewer stripes; otherwise the old bytes behind the new stripes follow them |
| Overwriting.DeleteThenPut | internal/storage/object.go:189-201 | after a delete every put is read back |
| FailedPuts.PartialReads | internal/storage/object.go:55-100 | a new object of t stripes and j shards of the next reads as its full stripes, with one more if j is at least k, and fails behind them if j is less but not zero |
| FailedPuts.ShortPutReads | internal/storage/object.go:63-65 | a new object whose input ran short reads as its full stripes without an error, if it has one |
| FailedPuts.StoppedPutReads | internal/storage/object.go:95-97 | the same for a put turned away after any number of shards |
| Overwriting.CounterLimit | internal/storage/object.go:122-128 | a new object is read back if and only if it has at most (2^32-1)*S bytes |
| Overwriting.Isolation | internal/storage/object.go:40-201 | a put or a delete leaves every other object's shards, marker and read-back as they were |
| Overwriting.DeleteSparesOthers | internal/storage/object.go:189-201 | a delete spares all other objects if and only if the id is not empty or nothing else is stored |
| Overwriting.DeletedIsGone | internal/storage/object.go:189-201 | after a delete there is no shard, no marker, and opening reports not found |
| Overhead.StorageBound | internal/ec/ec.go:82-89 | the stored payload R of n bytes in t stripes satisfies (k+m)n <= kR <= (k+m)(n + t(k-1)) |
| Runs.StepHolds | internal/storage/object.go:15-22 | every allowed operation, puts under any flags, and every fault keeps the store a map from ids to bytes, eroded perhaps |
| Runs.RunsReadBack | internal/storage/object.go:15-22 | after every run, a reader with no fewer data shards than the last put reads its bytes back if and only if every stripe is recoverable; other ids are not found |
| Runs.RunsStreamBack | internal/storage/object.go:203-240 | what opening answers after a run under any flags, and what a reader with no fewer data shards and buffers of any sizes receives while the run goes on with faults and with puts and deletes of other objects |
| EndToEnd.ReadToEnd | internal/api/api.go:529 | a copy loop ends with all of the specified bytes and the specified status |
| EndToEnd.ReadWhole | internal/storage/object_test.go:40-54 | opening and reading to the end give what the specification of a read at once gives, in bytes, status and error |
| EndToEnd.PutThenGet | internal/storage/object_test.go:32-54 | put where no more stripes are listed, open and read to the end give the bytes put, over either store, any context and for any buffer |
| EndToEnd.PerformRun | internal/storage/object.go:40-201 | the methods take either store through every possible run to the specified contents |
| EndToEnd.ReadInTurns | internal/storage/object.go:203-279 | reading in turns with further events gives the specified output, status and cursor |
| EndToEnd.RunThenRead | internal/storage/object.go:15-22 | a run, an opening and a reading under further events, by the methods of either store: the reader receives what the theorems on runs say |
| SnapshotReads.StepExtends | internal/storage/store.go:341-355 | no step of any call changes a stored payload in place |
| SnapshotReads.GetIsAtomic | internal/storage/store.go:341-370 | in every interleaving a get answers as the sequential store at one moment of the call: missing, corrupt or the pair, as in GetShard, and the pair was stored together |
| SnapshotReads.StepImplements | internal/storage/store.go:341-393 | each step of the machine is that of the sequential store: insertion, delete and rot take effect in one step each, all others leave the contents |
| SnapshotReads.PutStores | internal/storage/store.go:341-355 | however its steps are interleaved, a put whose caller leaves the buffer alone stores exactly the bytes it was given, under the header it was given, with their checksum |
| SnapshotReads.PutIsSeen | internal/storage/store.go:341-370 | a get that looks up after a put, with no other put, delete or rot of the key in between, returns those bytes and that header |
| SnapshotReads.GetIsAsked | internal/storage/store.go:357-383 | until it is forgotten, a get or verification answers for the key it was called with, and from the moment of the call |
| SnapshotReads.VerifyIsAtomic | internal/storage/store.go:372-383 | so does a verification, with a header that some put stored |
| EncoderCache.RunKeeps | internal/ec/ec.go:63-80 | in every interleaving cached encoders have their key's parameters and are never replaced |
| EncoderCache.AskedFirst | internal/ec/ec.go:63-80 | a call is refused exactly for invalid parameters, and otherwise gets an encoder made for those it was called with |
| EncoderCache.OneEncoderPerParams | internal/ec/ec.go:65-80 | calls with equal valid parameters, however interleaved and far apart, get one and the same encoder |

## Left out

- ErasureCoding.Encoder.Join: does not model the library's separate error for a nil data shard; such shards count as empty.
- FileNames.ParseGenerated: does not model leading white space that Sscanf skips; generated names have none.
- MemStores.MemStore.GetShard: answers a value; that Go returns a fresh copy is modelled step by step in SnapshotReads.
- ObjectStores.ObjectStore.GetObject: is not called where the code panics (object.go:149-156): on invalid parameters, once the last length has been found.
- ObjectStores.ObjectReader.LoadStripe: is not called where the code panics over a negative stripe length; that it also panics over one beyond what can be allocated, where the model reports short data, is not modelled.
- ObjectStores.ObjectStore.PutObject: has no I/O errors of the file system; directories, permissions, fsync and torn writes are not modelled.
- SnapshotReads.GetIsAtomic: hashing a payload is one step, and so is each region under the lock; copying is one step per byte.
- Listing.SortKeys: sorts by insertion and answers a new sequence, where the library sorts the slice in place.
- Encoder.Verify, ShardPayloadLen, Params.String, DefaultParams: no reading or writing path depends on them.
- The encoder of the write and read paths is a value made by EncoderFor; the identity of cached encoders is in EncoderCache only.
- Files that are truncated or whose header is damaged: outside the faults that the store recovers from.
- Failed puts within runs (what they leave and how that reads is in `FailedPuts`), two writers on one object, and writes of an object while a reader of it is open, which object.go:20-22 excludes.
- The HTTP layer, configuration, logging and the planned phases.
