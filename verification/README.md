# Beansdb in Dafny

Beansdb is a Bitcask-style key-value store: append-only data files, an in-memory hash tree as
the index, a garbage collector that moves live records, and a memcached-like server in front.
This project models its hard parts and proves what they promise. `dafny verify dfyconfig.toml`
checks everything.

## What is modelled

- **QuickLZ level 3** (`QuickLzTokens`, `QuickLzCompress`, `QuickLzDecompress`, `QuickLz`): the
  compressor's hash table, control words and early exit, the decompressor's overlapping four-byte
  copies and literal-only tail, and the header. The scratch table starts with arbitrary contents, as
  it does in the code.
- **Key codec** (`Fnv1a`, `KeyFormat`, `KeyCodec`, `KeyShapes`, `CodecTable`, `CodecDump`): formats
  recognised in keys, the growing dictionary, and the open-addressing reverse table.
- **Hash tree** (`HTreeLeaf`, `HTreeBlocks`, `HTreePool`, `HashTree`, `SyncHash`, `SmallTrees`,
  `HTreeApi`, `LazyUpdate`, `Snapshot`): the array-embedded tree with splits, pool enlargement, lazy
  invalidation and merging, the 16-bit synchronisation hash, and saving and loading.
- **Records, data files and hints** (`Crc32`, `CrcTable`, `Record`, `DataFile`, `Hint`): byte layout,
  checksum, optional compression, both readers, scanning.
- **Store** (`Buffers`, `Protocol`, `Histories`, `SetRules`, `Bitcask`, `Replay`, `Lasts`, `HintTrees`,
  `CurrentTree`, `Store`, `Recovery`, `Revival`): the buffer protocol as a state machine and as
  methods on fields, what clients see over its interleavings, the version rules, the tree of the current bucket and the hints made of it,
  restart, and what a count can do to a deletion.
- **Garbage collection** (`GcGuess`, `GcTables`, `Gc`, `GcRun`, `GcStore`, `GcTrace`, `GcLoss`): the
  size expected of a file, one file, all files, the renumbering of the current bucket, collections
  anywhere in a run, and two collections that lose a key.
- **Connection** (`ConnInput`, `ConnWire`, `ConnOutput`): input buffering, requests as they are written
  to the wire, and scatter output.
- **Formats** (`Formats`): where the bytes of each format lie and what known inputs hash to, so that
  encoders and decoders are not only right about each other.

Whatever the code takes from outside is a parameter: what sendmsg and read return, whether an
allocation for compression succeeds (`memory`), time stamps, whether a collection can open a hint
(`World`), pointer values written into a snapshot, and the bytes that lie behind a value in
memory (`beyond`). The command interpreter is a `Policy`, a function of the events executed so far.
Files are byte sequences by bucket number. Buffers, the pool, the dictionary and connection fields
are updated by methods; each method's contract ties the new state to a function of the old one.

## Bounds and findings

- Keys are NUL-free, at most 250 bytes, with a positive first byte. Versions fit 32 bits, bucket
  numbers 8 bits, positions are multiples of 256.
- The write buffer doubles until it takes the largest record, up to `top`, a power of two from 4 MB
  to 128 MB, and the configured bucket size plus `top` is below 2^32. The default of 4000 MB is
  covered for records of up to 64 MB. The 32-bit sums then do not wrap (`Bitcask.NoWrap`). The test
  for a full bucket is right for a buffer size if and only if its sum with the bucket size is below
  2^32 (`Bitcask.TestExactly`). With the default and a record that needs 128 MB it misses a rotation
  (`Bitcask.MissedRotation`).
- A record whose value is empty and whose key is longer than 232 bytes is marked as compressed
  although nothing was compressed, and reading it back depends on stray memory.
  `Record.RoundTripExactly` and `DataFile.StorableExactly` say exactly when a record comes back.
  A deletion writes such an empty value, so the tombstone of a very long key may be
  unreadable (`DataFile.LongKeyTombstone`), and then a scan brings the key back
  (`DataFile.DeletedKeyReturns`). The run theorems therefore ask for `Acceptable` writes.
- A hint is made of the tree of its bucket, and counting the keys of that tree drops tombstones from
  it where it merges: below an invalid inner node with at most 64 live entries
  (`LazyUpdate.DropsExactly`), so never while the root is a leaf, which it is up to 256 live keys.
  Start-up through hints then brings deleted keys back (`HintTrees.DroppedTombstone`). After 257 new
  keys and their deletion a count does it (`Revival.Revive`); `Revival.CountAndRestart` says exactly
  for which keys, and `Recovery.Restart` exactly when a restart is right.
- A collection that gives the current bucket a new number takes along the keys whose position the
  bucket's tree has, and that tree keeps the old number. A second renumbering without a rotation in
  between leaves the live keys of the bucket behind, above the current bucket number, where a get
  removes them (`GcStore.LeftBehind`). `GcStore.Optimize` says for each key whether it stays in reach,
  and `GcTrace.OptimizeTwice` which keys two collections lose. `GcLoss.LoseKey` has a condition under
  which two collections do it: file 1 holds nothing live but is expected to be too large to go behind
  file 0. `GcLoss.Lose` gets there from an empty store with 16 MB buckets: 49152 keys of one block
  each, then one key written with changing values until it is in the fourth bucket.
- A collection takes a dead key out of the index if and only if its tombstone is not at position 0 of
  bucket 0, because 0 is also the mark for removal (`Gc.DeadDropped`); the key stays dead.
- The hash of a tree is the specified one as long as no leaf has more than 256 live items. That holds
  for any number of keys if no 257 live ones go the same way at a branch and none is revived in place
  (`SmallTrees.AddSmall`): a leaf is only ever split when an item is appended to it.
- A command line whose only character before the newline is a carriage return keeps it
  (`ConnWire.EmptyLine`).
- The dictionary loader reads a count of 2^31 or more as a negative number and stops; the model
  reports failure there.

## Model

| member | source | states |
|---|---|---|
| `QuickLzTokens.ParseMatchWord` | src/quicklz.c:575-608 | the decoder's five cases recover offset, length and size from every encoding the compressor may choose for a match |
| `QuickLzTokens.StreamConcat` | src/quicklz.c:212-226 | groups that are full can be written out for good: the stream of a longer token list starts with theirs |
| `Formats.MatchBytes` | src/quicklz.c:376-392 | the bytes of matches at the limits of the one- and two-byte encodings |
| `Formats.LongMatchBytes` | src/quicklz.c:394-405 | the same for the three- and four-byte encodings |
| `Formats.ControlBytes` | src/quicklz.c:212-226 | the flags of a group are written lowest first, below a marker bit |
| `Formats.BucketOfBytes` | src/quicklz.c:64-71 | the bucket of three bytes is the exclusive or of their upper and lower twelve bits |
| `QuickLzDecompress.MemcpyUp` | src/quicklz.c:142-164 | moving four bytes at a time, three apart, yields the byte-by-byte self-referential copy for every offset the format allows |
| `QuickLzDecompress.DecompressCore` | src/quicklz.c:495-671 | on any stream of encodable, legal tokens for `data` the output is `data`, including control word reloads and the unchecked literal tail |
| `QuickLzCompress.FindMatch` | src/quicklz.c:306-354 | a reported match really repeats earlier input, lies in reach and ends before the tail, and no candidate that the bucket of the three bytes offers matches longer |
| `QuickLzCompress.Insert` | src/quicklz.c:354-357 | every bucket holds the latest sixteen positions with its hash, by a counter that wraps at 256 |
| `QuickLzCompress.UniformMatch` | src/quicklz.c:306-354 | among equal bytes a match is as long as it may be and close by, and there is one unless the counter has just wrapped |
| `QuickLzCompress.MatchIsCopy` | src/quicklz.c:318-354 | equal stretches of the input are what the overlapping copy of the decompressor produces |
| `QuickLzCompress.CompressTail` | src/quicklz.c:448-492 | the last bytes go out as literals, and the output is exactly the stream of tokens that cover the whole input |
| `QuickLzCompress.CompressHead` | src/quicklz.c:196-226 | the main loop ends within ten bytes of the end with a token stream for what it has read, or gives up, which it does not on 256 or more equal bytes |
| `QuickLzCompress.CompressCore` | src/quicklz.c:196-493 | the bytes written are a stream of encodable legal tokens that expand to the whole input, at most input plus 150 bytes, and under 256 in all for short input; 0 is returned only with tokens that reach beyond three quarters of the input and save less than a thirty-second part; 256 or more equal bytes, n in number, take at most 8 (n / 255) + 29 |
| `QuickLz.Compress` | src/quicklz.c:691-774 | 0 exactly for empty or too long input, otherwise an image of the input of at most its length plus 159, with sizes recorded, one byte sufficing below 216; it is stored as it is only if the core gave up, and 256 or more equal bytes always shrink |
| `QuickLz.Decompress` | src/quicklz.c:776-835 | returns the data of which the bytes are an image, compressed or stored |
| `QuickLz.RoundTrip` | src/quicklz.c:691-835 | for every length from 1 to 2^32-401, decompressing what was compressed returns it exactly, whatever the scratch memory held |
| `QuickLz.ImageUnique` | src/quicklz.c:495-671 | the same bytes are never an image of two different inputs |
| `KeyFormat.PrintValue` | src/codec.c:359-375 | printing the value of a numeral without leading zeros gives its digits back, in decimal and in hexadecimal |
| `KeyFormat.ParseRenders` | src/codec.c:177-239 | filling the parsed numbers into the parsed format gives the key back |
| `KeyFormat.ParseFmt` | src/codec.c:177-239 | the cursor loop computes the recursive parse |
| `KeyCodec.IndexRoundTrip` | src/varint.h:63-91 | the old varint of an index decodes to it and its size, whatever follows |
| `KeyCodec.DecodeEnc` | src/codec.c:423-491 | every key is recovered from its encoding, which never exceeds the key limit |
| `KeyCodec.EncStable` | src/codec.c:423-477 | a settled encoding is the same under every later dictionary |
| `KeyCodec.EncInjective` | src/codec.c:423-477 | distinct keys have distinct encodings |
| `KeyCodec.DecodeStable` | src/codec.c:479-491 | an encoding once made decodes to its key forever |
| `KeyShapes.ParseSpelt` | src/codec.c:177-239 | a key spelt from text, short digit runs and numbers is taken apart into exactly those: numbers of three to nine decimal or four to eight hexadecimal digits without a leading zero become conversions |
| `KeyShapes.SpeltEncodes` | src/codec.c:423-477 | such a key of 7 to 99 bytes with one or two numbers is stored as the index of its format and four bytes for each number |
| `Formats.IndexBytes` | src/varint.h:63-91 | the encodings of the first and the last index of one and of two bytes |
| `CodecTable.FreeSlot` | src/codec.c:91-117 | the reverse table always has a free slot |
| `CodecTable.Probe` | src/codec.c:438-447 | every probe ends, on the format's index or on proof that it is unknown |
| `CodecTable.Codec.Intern` | src/codec.c:438-470 | the format gets the index it has or the next one, and is refused only by a full dictionary that does not have it |
| `CodecTable.Codec.Rebuild` | src/codec.c:91-109 | afterwards every format is found from its hash without a gap |
| `CodecTable.Codec.Encode` | src/codec.c:423-477 | the result is the settled encoding; the dictionary only grows, by this key's format, up to its cap |
| `CodecTable.EncodeRun` | src/codec.c:423-491 | over any run every code decodes to its key under the final dictionary, and codes are equal exactly when keys are |
| `CodecDump.DumpCodec` | src/codec.c:67-89 | the bytes are the dump of the dictionary |
| `CodecDump.LoadCodec` | src/codec.c:119-163 | a dump loads back as the same dictionary with a rebuilt reverse table; short buffers fail |
| `Formats.DictFields` | src/codec.c:67-89 | the count, and then size, argument count, text and NUL of every format, one after the other to the end |
| `HTreeBlocks.LeafAdd` | src/htree.c:206-260 | in place, into a free block, by growing or by chaining, the chain stands for the map with the key set |
| `HTreeBlocks.LeafRemove` | src/htree.c:307-346 | the chain stands for the map without the key, and the entry that was there is reported |
| `HTreePool.GraftHolds` | src/htree.c:281-305 | replacing one subtree replaces exactly the keys whose hashes lead into it |
| `HTreePool.GrownOk` | src/htree.c:169-183 | a deeper pool holds the same tree |
| `HashTree.HTree.AddItem` | src/htree.c:197-278 | the tree stands for the map with the key set, through splits, recursive splits and enlargement; the leaf the key led to is split exactly when an appended item makes it too full for its level, no leaf but those below it changes, and a leaf root stays one up to 256 live items |
| `HashTree.HTree.EnlargePool` | src/htree.c:169-183 | one more level changes no node and no entry |
| `HashTree.HTree.SplitNode` | src/htree.c:281-305 | the items of a leaf end up below it where their decoded keys hash to, none lost |
| `HashTree.HTree.RemoveItem` | src/htree.c:307-346 | the tree stands for the map without the key, and no leaf gets more live items |
| `HashTree.HTree.GetItem` | src/htree.c:406-431 | exactly the map's answer |
| `HashTree.HTree.MergeNode` | src/htree.c:348-371 | sixteen small leaves become one leaf with their live items, without splitting again |
| `HashTree.HTree.UpdateNode` | src/htree.c:373-404 | the subtree becomes valid and loses exactly the entries without a positive version that lead through a merged node, and no leaf ends with more live items than it may have; a valid subtree does not change |
| `LazyUpdate.InvalidAbove` | src/htree.c:197-204 | above an invalid node every node is invalid |
| `HashTree.ValidCount` | src/htree.c:373-404 | a valid node counts the live items below it exactly, and has more than 64 if it is an inner node |
| `LazyUpdate.LazyInvariant` | src/htree.c:348-404 | at every reachable node: leaves are valid, invalidity is closed upwards, a valid node counts exactly the live entries of the map that lead through it, and a valid inner node has more than 64 of them and valid children, so only nodes over leaves are merged |
| `LazyUpdate.DropsExactly` | src/htree.c:348-404 | an update of the whole tree drops a key if and only if it is dead and leads through a reachable invalid inner node with at most 64 live entries below it |
| `SyncHash.UpdatedHash` | src/htree.c:373-404 | with leaves of at most 256 live items, a valid node carries the specified hash of its live items |
| `SyncHash.ShapeIndependent` | src/htree.c:262-278 | two updated trees with equal live entries have equal root hash and count, whatever their histories, shapes and dictionaries |
| `Formats.ManyEntries` | src/htree.c:373-404 | the hash of more than 256 live entries is the number to the base 97 whose digits are the hashes of the sixteen classes |
| `Formats.OneEntry` | src/htree.c:197-260 | a single live entry hashes to its key hash times its value hash |
| `Formats.DigitsAreHash` | src/htree.c:42 | the digits that lead through the levels, put together, are the key hash |
| `Formats.BucketIsPrefix` | src/htree.c:968-978 | a tree serves exactly the keys whose hashes begin with its number |
| `SmallTrees.AddSmall` | src/htree.c:262-278 | no leaf gets more than 256 live items as long as no 257 live keys go the same way at a branch and no dead key comes back to life in place |
| `HTreeApi.Add` | src/htree.c:980-985 | the tree's map gets the entry exactly when the key belongs to this tree; leaves stay at 256 live items if the keys are spread and none is revived |
| `HTreeApi.Remove` | src/htree.c:994-999 | the tree's map loses the key exactly when it belongs to this tree; no leaf grows |
| `HTreeApi.Get` | src/htree.c:1008-1025 | the map's answer, and None for keys of other trees |
| `HTreeApi.GetHash` | src/htree.c:1032-1046 | the root count is that of the live entries, always; the root hash is the specified one while no leaf has more than 256 live items, in particular up to 256 live entries; exactly the dead entries on the way of a merge go, and none if the root is a leaf |
| `HTreeApi.VisitNode` | src/htree.c:557-587 | every entry is visited once, with its key decoded |
| `HTreeApi.Run` | src/htree.c:980-1046 | over every run of adds, removes, gets and hash requests on a new tree, every answer agrees with a plain finite map: gets exactly, counts exactly, hashes up to 256 live entries, and of any number as long as additions keep the keys spread and revive none |
| `Snapshot.SaveChain` | src/htree.c:799-841 | the sums over a chain give the size and count of its concatenation, and the blocks are written as one |
| `Snapshot.LoadedIs` | src/htree.c:695-731 | single full blocks in place of chains leave the tree standing for the same map |
| `Snapshot.Save` | src/htree.c:778-869 | the bytes are the specified file, with its own length recorded |
| `Snapshot.Open` | src/htree.c:631-776 | a saved file loads; a wrong version or length does not |
| `Snapshot.SaveAndOpen` | src/htree.c:631-869 | the loaded tree is the same map with the same dictionary and the same hash, count and marks at every node |
| `Formats.SavedHead` | src/htree.c:778-869 | version text, the length of the file, the height, the nodes at byte 21, and the dictionary at the end |
| `Formats.SavedNode` | src/htree.c:60-70 | the marks, depth, hash and count of node i are in the 16 bytes at 21 + 16 i |
| `Formats.ItemFields` | src/htree.c:799-841 | position, version, hash and key of an item of a leaf are found at their offsets |
| `Crc32.CrcChained` | src/crc32.c:76-85 | the checksum of two parts, chained, is that of the whole |
| `Crc32.TableIsDivision` | src/crc32.c:20-75 | a table entry stands for eight steps of the division of section 8 of RFC 1952 |
| `Crc32.ByteIsDivision` | src/crc32.c:76-85 | each input byte does eight steps of that division |
| `Crc32.CrcIsDivision` | src/crc32.c:76-85 | the checksum is the division started from the complement, with the complement taken of the result |
| `Crc32.CheckValue` | src/crc32.c:76-85 | the checksum of the nine digits is 0xcbf43926, the check value of this code |
| `CrcTable.LiteralsAreEntries` | src/crc32.c:20-74 | each row of numbers written in the table holds what the division defines |
| `CrcTable.ComputeCrc` | src/crc32.c:76-85 | the loop over the literals of the table computes the checksum, complements included |
| `Formats.RecordFields` | src/record.c:452-476 | checksum, time stamp, flag, version, sizes, key and value are found at their offsets, and zeros fill the last block of 256 bytes |
| `Formats.FnvValues` | src/fnv1a.h:23-35 | published values of the key hash, and that of a byte above 127, which is taken as negative |
| `Formats.ValueHash` | src/record.c:58-72 | the hash of a value of one byte |
| `Formats.LittleEndian` | src/record.c:452-476 | words are stored lowest byte first |
| `Formats.LongValueHash` | src/record.c:58-72 | the hashes of two long values differ by what their lengths and their first and last 512 bytes contribute |
| `Record.DecodePacket` | src/record.c:177-223 | decoding undoes the stored form, whatever follows it |
| `Record.DecodeOnly` | src/record.c:177-223 | only the stored form of a record decodes to it |
| `Record.CompressRecord` | src/record.c:106-140 | the value is replaced only by an image of it that is at most seven tenths as long, under the code's conditions; a long run of one byte is replaced |
| `Record.DecompressRecord` | src/record.c:142-175 | a value that is an image is expanded and the flag cleared; a size mismatch is refused |
| `Record.RoundTripExactly` | src/record.c:106-175 | what compressing makes of a record unpacks to it for all memory contents if and only if it is not an empty value behind a key that exceeds a block |
| `Record.EncodeRecord` | src/record.c:452-476 | the buffer is the padded, checksummed stored form, compressed for a long run of one byte |
| `Record.DecodeRecord` | src/record.c:177-223 | size, end and checksum errors and success as specified by the bytes alone |
| `Record.FetchRest` | src/record.c:390-430 | in all three layouts the key and value are the file's bytes, and a short file is noticed |
| `Record.FastReadRecord` | src/record.c:372-450 | for every file and offset it agrees with decoding the rest of the file, except that it wants one whole block |
| `Record.RecordRoundTrip` | src/record.c:106-476 | both readers return the record that was encoded, at any place in a file |
| `DataFile.StorableExactly` | src/record.c:106-175 | exactly the storable records come back whatever memory holds |
| `DataFile.LongKeyTombstone` | src/bitcask.c:1378-1381 | the tombstone of a key of more than 232 bytes can fail to unpack, with the memory that makes it fail |
| `Formats.CheckedKeys` | src/htree.c:943-966 | accepted are exactly the keys of 1 to 250 bytes that start with printable ASCII and go on with that or bytes from 128 on |
| `DataFile.ScanSound` | src/record.c:493-536 | a scan that skips what does not unpack is the replay on sound records |
| `DataFile.DeletedKeyReturns` | src/record.c:493-536 | a key of more than 232 bytes is set and deleted, and a scan of the two records has it again |
| `DataFile.RecordAt` | src/record.c:225-306 | at the position of each appended record the file decodes to that record |
| `DataFile.ReplayLatest` | src/record.c:493-536 | replaying a file record by record leaves, per key, what its last record says |
| `Hint.HintRoundTrip` | src/hint.c:49-69 | a hint record gives back key, position, version and hash |
| `Formats.HintFields` | src/hint.c:49-69 | key size, position, version, hash and key are found at their offsets |
| `Hint.HintBuffer.Collect` | src/hint.c:49-69 | the buffer grows by one hint record, and one doubling is always enough |
| `Hint.HintIsShort` | src/hint.c:106-118 | a hint is never longer than its data file |
| `Hint.HintScan` | src/hint.c:167-195 | scanning a hint made of any entries lays them over the index, in whatever order they were collected and whatever number the file has by now |
| `Hint.HintScanIsDataScan` | src/hint.c:167-195 | from any starting index, scanning the hint made of a scanned file and scanning the data give the same index, tombstones included, also after the file was renumbered |
| `Hint.ScanDataFile` | src/record.c:493-536 | the tree becomes the replay of the file, and the hint written is one of the latest entry of every key |
| `Hint.BuildHint` | src/hint.c:106-118 | the compressed file is a hint of exactly the entries of the tree, be it of a scanned file or of the current bucket |
| `Hint.ScanHint` | src/hint.c:174-192 | on any bytes the cursor loop does what the recursive reading of hint records does, stopping at an overrun |
| `Hint.ScanHintFile` | src/hint.c:167-195 | on a hint made of any tree the index gets that tree's entries, with the number of the file |
| `HintTrees.HintExactly` | src/hint.c:167-195 | the hint of a bucket and its data have the same effect from every index, if and only if the tree it was made of has every tombstone of the bucket |
| `HintTrees.HintRestartExactly` | src/bitcask.c:621-655 | scanning all hints gives the live keys of a replay at their places, if and only if no key whose tombstone is missing from its hint is live in an older hint |
| `HintTrees.DroppedTombstone` | src/htree.c:348-404 | a key set in one bucket and deleted in the next is back, when an update merges on its way in the tree of the second bucket before the hint is made |
| `CurrentTree.HintsRotate` | src/bitcask.c:1130-1153 | a rotation keeps every bucket's tree and hint in order, and starts with an empty tree |
| `Buffers.FlushBeginKeeps` | src/bitcask.c:1166-1202 | swapping buffers, with or without rotation, moves no record |
| `Buffers.WriteKeeps` | src/bitcask.c:1204-1233 | writing part of the flush buffer to the file keeps every record where a reader looks |
| `Buffers.FlushEndKeeps` | src/bitcask.c:1235-1239 | dropping the flush buffer loses nothing |
| `Buffers.AppendKeeps` | src/bitcask.c:1340-1364 | an append adds one record to the current bucket and touches no other, through enlargement and rotation |
| `Buffers.BufferFinds` | src/bitcask.c:1002-1019 | when a buffer is the place to look, it shows the original record |
| `Buffers.FlushedIsInFile` | src/bitcask.c:1000-1026 | a record in neither buffer is in the file for good |
| `Buffers.LookFinds` | src/bitcask.c:989-1070 | at every moment the place where a get looks shows the original record |
| `Protocol.RunKeeps` | src/bitcask.c:973-1376 | the protocol invariant holds after every interleaving of append, publish, raise, flush and get steps |
| `Protocol.GetsReturnPublished` | src/bitcask.c:973-1112 | a get split into steps returns exactly what was published for its key when it looked it up |
| `Protocol.PublishedIsReadable` | src/bitcask.c:989-1026 | in every reachable state every published position yields its record in the place a get looks |
| `Histories.SetHolds` | src/bitcask.c:1320-1368 | an append becomes the last word on its key with its publication, whatever runs in between |
| `Histories.QuietRun` | src/bitcask.c:973-1376 | flushes, gets, prunings and sets of other keys never change the last word on a key |
| `Histories.GetAnswers` | src/bitcask.c:973-1112 | a get that starts while a record is the last word on its key returns it and ends within four steps of its own |
| `Histories.ReadYourWrites` | src/bitcask.c:973-1376 | in every interleaving, from the publication of a set until the next set of its key, every get that starts returns that set, or nothing after a deletion |
| `Histories.ReadRaised` | src/bitcask.c:1304-1312 | the same for a set of unchanged content, which raises only the version |
| `Histories.FlushStores` | src/bitcask.c:1155-1243 | in every interleaving, once no flush is in progress again, everything appended before a flush began is in the data files |
| `Histories.FlushEnds` | src/bitcask.c:1204-1243 | a flush is over after as many bytes as were buffered |
| `SetRules.SucceedsExactly` | src/bitcask.c:1245-1291 | a write is accepted exactly if its value is of legal size and empty for a deletion and it has no version, or one above the stored one, or deletes a key that is live |
| `SetRules.CellLaw` | src/bitcask.c:1245-1318 | a refused write changes nothing; an accepted deletion leaves a dead key; any other accepted write leaves the key live with its value and flag, at the version asked for or one up, or as it was if nothing differs |
| `SetRules.VersionNeverDrops` | src/bitcask.c:1261-1318 | no write lowers the absolute version; one that changes the key raises it |
| `SetRules.VersionsNeverDrop` | src/bitcask.c:1261-1318 | nor does any sequence of writes |
| `SetRules.Converges` | src/bitcask.c:1261-1318 | from any state, writes with distinct positive versions, in any order, end with the highest version and its value and flag, or with the state they started from if that is higher |
| `SetRules.ReplicasAgree` | src/bitcask.c:1261-1318 | two orders of the same writes, from the same state, give the same state |
| `SetRules.EmptyHash` | src/record.c:58-72 | the hash of an empty value is not the tombstone's, so a delete is never taken for equal content |
| `Bitcask.NoWrap` | src/bitcask.c:1196-1354 | with bucket size and largest buffer together below 2^32, the sums of positions and buffer sizes do not wrap |
| `Bitcask.TestExactly` | src/bitcask.c:1354 | the 32-bit test for a full bucket is right for a buffer size wherever it may begin, if and only if bucket size plus buffer size is below 2^32 |
| `Bitcask.MissedRotation` | src/bitcask.c:1354 | with the default bucket size and a buffer of 128 MB there is a start at which the test misses the rotation and a later position wraps to 0 |
| `Bitcask.Log.BeginFlush` | src/bitcask.c:1163-1202 | the fields change as the flush-begin step says, under the code's condition |
| `Bitcask.Log.WriteFlush` | src/bitcask.c:1204-1233 | the rest of the flush buffer is in the file |
| `Bitcask.Log.EndFlush` | src/bitcask.c:1235-1239 | the fields change as the flush-end step says |
| `Bitcask.Log.Flush` | src/bitcask.c:1155-1243 | every bucket's records are the same, and the write buffer is empty if anything was flushed; a number is used up only if its bucket has less than the largest buffer left |
| `Bitcask.Log.MakeRoom` | src/bitcask.c:1348-1359 | the doubling loop reaches the specified size, and the bucket rotates when it is full |
| `Bitcask.Log.Append` | src/bitcask.c:1340-1364 | the record is at the returned position, at the end of the current bucket, and no other bucket changes; a number is used up only if its bucket has less than the largest buffer left, none if the record fits the buffer; if none is left nothing is appended |
| `Bitcask.Log.ReadAt` | src/bitcask.c:989-1112 | the record of the position comes back, from whichever of the three places holds it |
| `Store.SameByHash` | src/bitcask.c:1293-1302 | comparing hash, flag and value decides equality of content, for live and deleted keys |
| `Store.Store.Fetch` | src/bitcask.c:973-1112 | a live key yields the value, flag and version clients were told; a deleted or unknown one nothing |
| `Store.Store.Raise` | src/bitcask.c:1304-1312 | only the version of the key changes, in the index and the current tree |
| `Store.Store.Write` | src/bitcask.c:1320-1368 | index, log, current tree and hints agree on the new record, which makes its bucket longer and is in its tree, and all other keys are unchanged; numbers are used up as by an append |
| `Store.Store.Set` | src/bitcask.c:1245-1376 | the cells change by the version rules alone unless the bucket numbers are used up, and success is reported exactly when the key is legal and the write is one that succeeds; a refused set changes neither cells, index nor log; what differs from the stored content is written; a rotation makes the current tree agree with the index, and the trees of older buckets stay |
| `Store.SetThenGet` | src/bitcask.c:973-1376 | a get right after a set finds nothing if that was a deletion, otherwise the value and flag with the version due, and what was there before if the set was refused |
| `Store.Store.CloseBucket` | src/bitcask.c:1130-1153 | the bucket that is left gets a hint of its tree, no tree changes, and the new tree is a single leaf |
| `Store.Store.CountCurrent` | src/bitcask.c:1393-1402 | the live keys of the current tree are counted, and exactly its dead entries on the way of a merge are dropped; a tree that was never split loses nothing |
| `Store.Store.Prune` | src/htree.c:348-371 | a hash request may drop a dead key from the index and nothing else |
| `Store.Store.Flush` | src/bitcask.c:1155-1243 | clients see no change, no record moves, no bucket's tree changes, the index still agrees with what a replay would give, and the write buffer is empty if the flush was due |
| `Replay.ReplayAppend` | src/bitcask.c:621-655 | a record appended to the last bucket in use is the last to be replayed |
| `Replay.ReplayBacked` | src/bitcask.c:621-655 | every replayed entry is live and leads to the record it was made from |
| `Recovery.CompactReplay` | src/bitcask.c:531-583 | replaying the compacted files gives the same keys, versions and hashes, each leading to the same record |
| `Recovery.IndexSurvives` | src/bitcask.c:585-655 | exactly the live cells are replayed, each with its flag and value |
| `Recovery.SkipEmptyFiles` | src/bitcask.c:531-583 | the files that are not empty get the numbers from 0 on, in order, and their hints go with them |
| `Recovery.ReopenExactly` | src/bitcask.c:585-655 | the hints of compacted files give exactly the live cells, if and only if no key whose tombstone is missing from its hint is live in an older hint |
| `Recovery.Scan` | src/bitcask.c:616-655 | each file goes through its hint if there is one, and the tree becomes the scan of those hints and replays |
| `Recovery.Close` | src/bitcask.c:681-709 | everything is in the files, and every file that is not empty has a hint of its bucket's tree |
| `Recovery.Restart` | src/bitcask.c:585-709 | after a shutdown and a start from the data files, gets answer as before for live keys and find no others; through the hints exactly the keys whose latest hint entry is live are found, and that is as before if and only if no tombstone missing from its hint hides an older live hint entry, in particular if no count dropped one |
| `Recovery.RunAndRecover` | src/bitcask.c:531-1402 | after any run of sets, deletes, flushes, rotations, dropped tombstones and counts, the restarted index lists exactly the live keys, and the files under its positions hold their flags and values: from the data always, through the hints if nothing was counted or there were at most 256 sets; the bucket numbers are not used up in fewer than 128 operations, nor before the records written amount to 256 times the bucket size less the largest buffer |
| `Revival.CountAndRestart` | src/bitcask.c:585-1402 | after a count and a restart through the hints, a key whose tombstone is in the current tree is back if and only if the count merges on its way and its latest entry in the older hints is live |
| `Revival.Revive` | src/bitcask.c:1378-1402 | a live key of an older bucket, 257 new keys, all deleted again together with it, a count, and a restart through the hints: the key is back |
| `Lasts.ReplayLast` | src/bitcask.c:621-655 | the last record of a key in bucket order decides whether it is replayed, and as what |
| `GcTables.SurvivorsDiffer` | src/record.c:704-706 | two survivors of one file never share a key |
| `GcTables.StepMirrors` | src/record.c:692-793 | after a collected file the index still agrees with the replay, for moved, staying and dead keys |
| `GcTables.StepAllLive` | src/record.c:692-793 | what has been collected is live where it was put |
| `GcTables.StepCells` | src/record.c:582-605 | every live key keeps version, flag and value; no dead key becomes live |
| `GcTables.RenumberExactly` | src/bitcask.c:752-767 | an entry of the current bucket gets the new number if and only if the current tree has its key at its position |
| `GcTables.RenumberMirrors` | src/bitcask.c:933-964 | moving the current bucket to a free number keeps index and replay in agreement |
| `GcTables.RenumberCells` | src/bitcask.c:746-767 | and every key's content |
| `GcGuess.CountDeleted` | src/hint.c:197-227 | on any bytes the cursor loop counts the hint records, and those that the index does not use |
| `GcGuess.TallyOf` | src/hint.c:197-227 | on a hint the counts are the entries of its tree and those among them that the index does not use, in whatever order they were collected |
| `GcGuess.GuessSize` | src/bitcask.c:860-861 | the expected size is the file size less half the share of unused entries, never more than the file, and nothing if the hint does not open |
| `Gc.RewriteKeeps` | src/record.c:747-748 | encoding a stored record again keeps what it holds and never lengthens it |
| `Gc.UpdateRelocates` | src/record.c:582-605 | visiting the scratch tree in any order moves the survivors and may drop dead keys, nothing else |
| `Gc.DeadDropped` | src/record.c:582-605 | a dead key whose tombstone is noted with position zero leaves the index if and only if zero is not its position |
| `Gc.OptimizeDataFile` | src/record.c:606-819 | on 0 the target holds its records and rewrites of exactly the survivors, in order, the index follows, and the new hint is that of the new target; on 1 nothing has changed; it is 0 with a temporary file and a source within the limit, when everything fits and the hint opens, and when nothing survives and the hint opens or the target is empty |
| `GcRun.CollectFile` | src/bitcask.c:860-926 | some target at or before the source succeeds, the next one if the expected size does not fit behind the last, the same one if it does and the copy fits or nothing is left to copy; the target is as large as its live records need, the total size does not grow, and the run's state and hints are kept |
| `GcRun.CollectAll` | src/bitcask.c:794-931 | all files below the current one are collected, the hints are those of the new files, there are no gaps, and the total size does not grow; there are never more targets than files, only one if every hint opens and everything fits, and at most an empty second one if only file 0 has live keys |
| `GcStore.RenumberCurrent` | src/bitcask.c:752-767 | whatever the current tree holds and in any order of visiting, the entries at positions it has are renumbered, and no others |
| `GcStore.LeftBehind` | src/bitcask.c:752-767 | the same tree renumbered from bucket 3 to 2 and then to 1: the first takes its key along, the second leaves it above the current bucket |
| `GcStore.ReachMoved` | src/bitcask.c:933-964 | after a renumbering a live key is in reach if and only if it is elsewhere or the tree has its position, and the tree has the position of no key under the new number |
| `GcStore.Optimize` | src/bitcask.c:769-971 | it succeeds and the files do not grow; a live key stays in reach if and only if the current bucket kept its number, or the key is not in it, or its tree has the key's position; if that holds of all, clients see no live key change and index, log and hints are again in good order; the tree still agrees with the index if the number was kept; the new number is at most the count of files below, so a gap lowers it, and at most 1 if every hint opens and everything fits |
| `GcTrace.OptimizeAndRestart` | src/bitcask.c:585-971 | collection and restart bring back exactly the keys live before, with flag and value, from the data and, if nothing was counted, through the rewritten hints |
| `GcTrace.OptimizeTwice` | src/bitcask.c:769-971 | two collections in a row lose nothing unless both renumber the current bucket, and then exactly its live keys are out of reach; the first renumbers whenever a number below the current one is free |
| `GcTrace.RunCollecting` | src/bitcask.c:531-1402 | any run of operations and collections in which no collection follows a renumbering one without a rotation in between: the restarted index lists exactly the live keys, and the files hold their flags and values; every number change is one that the log's bytes or a collection of its files allow; a run never stops at its first collection unless a record needed a buffer larger than a bucket, and never for want of numbers before the bytes written account for them |
| `GcLoss.LoseKey` | src/bitcask.c:860-964 | if all live keys below the current bucket are in file 0 and file 1 is expected not to fit behind them, two collections leave every live key of the current bucket above the current number |
| `GcLoss.Lose` | src/bitcask.c:860-1376 | a run of sets on an empty store with 16 MB buckets that leads there, and the key that the two collections lose |
| `ConnInput.FeedConcat` | src/beansdb.c:1341-1445 | feeding a stream in two parts is feeding it whole |
| `ConnInput.Conn.Shrink` | src/beansdb.c:409-429 | the buffered bytes survive shrinking, and a large buffer that holds little is given up for a small one, no other |
| `ConnInput.Conn.TryReadCommand` | src/beansdb.c:1341-1370 | executing a buffered line leads to the same outcome; without a newline nothing is consumed |
| `ConnInput.Conn.TryReadNetwork` | src/beansdb.c:1379-1445 | compaction, growth and reading lead to the same outcome |
| `ConnInput.Conn.FillFromBuffer` | src/beansdb.c:1610-1620 | leftovers move into the item without loss |
| `ConnInput.Conn.Drive` | src/beansdb.c:1535-1693 | when the connection waits or closes it has executed exactly what the byte automaton executes |
| `ConnInput.Serve` | src/beansdb.c:1341-1693 | for every split of the stream into reads the lines and blocks executed depend on the stream alone |
| `ConnWire.WireLaw` | src/beansdb.c:1341-1693 | requests written out as lines with LF or CR LF, data blocks with CR LF where the interpreter asks for them and junk where it drops it are executed as exactly those lines and blocks, in order |
| `ConnWire.LastWords` | src/beansdb.c:1535-1693 | after a line that closes the connection nothing more is executed |
| `ConnWire.EmptyLine` | src/beansdb.c:1350-1365 | a line of CR LF alone is executed with its carriage return |
| `ConnWire.ServeRequests` | src/beansdb.c:1341-1693 | the same from the network, however the reads cut the requests up |
| `ConnOutput.Output.AddMsghdr` | src/beansdb.c:129-155 | a message is added and the queue unchanged |
| `ConnOutput.Output.EnsureIovSpace` | src/beansdb.c:491-514 | after regrowing, every message points at the same entries of the new list |
| `ConnOutput.Output.AddIov` | src/beansdb.c:524-579 | the queue grows by the buffer, or by a prefix of it when an allocation fails; the first message stays within 1400 bytes and no message exceeds IOV_MAX entries |
| `ConnOutput.Output.Transmit` | src/beansdb.c:1462-1519 | bytes sent followed by bytes pending never change, a positive result sends that many, only a full socket is a soft error, and completion means none are pending, and comes when none are |
| `ConnOutput.Reply` | src/beansdb.c:491-1519 | for all buffers and all send results, sent and queued bytes are the buffers in order, and non-empty buffers are sent completely once there were more positive results than bytes |

## Left out

- Collection running at the same time as gets or sets: temporary file fallback, retries and the symlink window.
- Skipping recent files during a collection, and with it the retention of tombstones and the renumbering of skipped files.
- Hints that are being built by another thread while the store goes on or stops: a rotation builds its hint at once.
- Recovery inside damaged data files (scan_record's block skipping): data files are taken to be the records appended to them.
- A hint or snapshot whose data blocks are not items, and reading with a cut-off time.
- Loading a snapshot as part of a restart: `Snapshot` and `Recovery` are proved separately.
- Int overflow of the hint buffer size, which would need more than 2^31 bytes of hints for one file.
- Out-of-memory while reading a request, which drops the connection.
- Rounding in the comparison with the compression ratio, taken as exactly seven tenths.
- list_dir, per-directory hashes below the root, tokenizing and interpreting commands, statistics, logging.
- The new encodings of the codec, QuickLZ levels 1 and 2, streaming and memory-safe modes, read_record.
- diskmgr, mfile, buckets.txt, hstore routing, freelists, threads and the event loop.
- Bitcask.Log.Append: when the bucket numbers are used up the code still buffers the record, under number 256, and exits in the next flush; here nothing is appended and `full` is reported.
- Store.Store.Write: with the numbers used up it stops as `Bitcask.Log.Append` does.
- Store.Store.Set: with the numbers used up it stops as `Bitcask.Log.Append` does, where the code answers once more before it exits.
- Snapshot.Open: says nothing of files that pass the version and length checks without being a save.
- Gc.OptimizeDataFile: the flag that makes it keep tombstones is taken as off, because recent files are not skipped.
- GcRun.CollectAll: takes every file as old enough.
- Store.Store.Prune: drops one dead key that it is given; which ones a hash request on the index drops is `HTreeApi.GetHash`.
- HTreeApi.Run: beyond 256 live entries it promises hashes only for runs that keep the keys spread and revive none.
- DataFile.RecordAt: on files of appended records; the block skipping of scan_record is not modelled.
- GcStore.Optimize: after a collection that leaves keys out of reach it only promises a log in order and the fate of each live key.
- GcTrace.RunCollecting: stops before a collection that follows a renumbering one without a rotation, even if that collection would not renumber, and before one of a file larger than the bucket size, which takes a record that needs a larger buffer than a bucket.
- Hint.ScanDataFile: on files of sound records; what a scan does with records that do not unpack is `DataFile.ScanSound` and its neighbours.
- HTreeApi.GetHash: for the root only.
- Record.CompressRecord: compares with exactly seven tenths.
