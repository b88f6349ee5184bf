# Verified core of latte_c

latte_c is a C library in the manner of Redis: radix tree, hash table, packed lists, compression,
checksums, a cache and locks. Each of these has a simple meaning (a map, a sequence, a polynomial
remainder, the identity) and a complicated implementation. This project models the implementations
in Dafny, keeps their loops, buffers, pointers and counters, and proves that they have that meaning.

`dafny verify dfyconfig.toml` checks the whole project.

- **Radix tree** (`RaxTree`, `Rax`, `RaxInsert`, `RaxRemove`, `RaxMap`): a tree stands for the map
  `Get`. After any run of insertions and removals the tree is the map the run builds, the return
  codes and old values are the map's, the counters are exact, no node outgrows its size field of 29 bits
  and freeing ends at zero. Trees built by insertions are maximally compressed. The comment above the recompression in `src/rax/rax.c` shows
  "FOO" and "FOOBAR" merged into one node after the removal of "FOO"; the code does not do this
  (`RaxRemove.RemoveFoo`), and `RaxRemove.Remove` says exactly for which trees and keys a removal
  leaves two links in a row (`RaxMerged`). The second scan of the recompression has no size cap, while
  the merged node keeps the size that the capped one counted: on a tree with longer chains a removal
  takes the last bytes off every key behind the node, and with enough of them copies outside its
  allocation. `RaxRemove.Remove` says exactly when and which keys, and that keys no longer than a node
  can hold never get there; `RaxRemove.RemoveOverlong` gives a family of well-formed trees that do.
- **Radix tree order** (`RaxOrder`, `RaxIterator`, `RaxScan`): every seek lands on the least or
  greatest key that its operator string asks for, or on nothing, and repeated next gives the rest once
  each in order, on every tree a run of insertions and removals reaches.
- **Radix tree bytes** (`RaxLayout`, `RaxNodeBytes`): the memmoves of adding and removing a child, on
  the bytes of a node with its padding, are sorted insertion and deletion, move no other pointer, and
  make the bytes of exactly the node that the tree proofs speak of.
- **Ziplist** (`ZiplistFormat`, `ZiplistCascade`, `Ziplist`): the bytes of a ziplist as numbers, and
  deleting a run of entries, with an arbitrarily long cascade of growing back lengths behind it.
- **Listpack** (`ListpackNumber`, `ListpackFormat`, `Listpack`, `ListpackBytes`): the nine encodings and
  that each is the shortest, back lengths, edits in place as edits of a sequence, walks in both
  directions, and the format by its bytes alone.
- **Quicklist** (`Quicklist`, `QuicklistLinks`): listpacks and LZF together on a chain of
  pointers; compression is invisible.
- **LZF** (`LzfFormat`, `LzfTable`, `LzfPack`, `Lzf`): compressor and decompressor, for any contents of the
  hash table; the compressor writes exactly the stream that input, table and place in memory determine.
- **CRC-64** (`Crc64Algebra`, `Gf2Matrix`, `Crc64`, `Crc64Speed`, `Crc64Check`): tables, slices, parallel
  streams and GF(2) matrices all compute the bit-by-bit checksum, which is the one of Jones.
- **Dict** (`DictTable`, `Dict`, `DictIterator`): two tables during an incremental rehash are one map;
  when tables grow and how far each step gets.
- **List and LRU cache** (`LinkedList`, `CacheHistory`, `LruCache`): pointers, an index, and recency
  over any run of operations.
- **Strings** (`SdsArgs`, `SdsText`): quoting and splitting are inverse, and what every character means.
- **Shared mutex** (`SharedMutex`, `SharedMutexCalls`): the reader-writer lock as a protocol of steps.
  The header of the module says that a thread may take the exclusive lock several times; the code
  keeps no owner, and such a thread waits for itself for ever, as does everyone its lock excludes
  (`SharedMutexCalls.LockTwice`, `SharedMutexCalls.Bystander`). `SharedMutexCalls.ReturnsExactly` says
  which calls can return and which cannot. `latte_shared_mutex_new` sets up the attributes of the
  inner mutex but does not initialise it; the model starts from a free mutex.

Two more places where the code differs from what its text suggests: `dict_resize` always returns
`DICT_ERR`, because `dict_can_resize` is 1 and `DICT_RESIZE_ENABLE` is 0 (`Dict.Dict.Resize`); and the
dictionary iterator's guard against a `next` without `has_next` does not cover a new iterator, whose
entry is still null (`DictIterator.Iterator.Next`, `DictIterator.NextFirst`).

## Model

| member | source | states |
|---|---|---|
| `Crc64.BitByBit` | src/crc/crc64_redis.c:79-102 | for any starting register, the reflected result of the bit loop is the byte fold on the reflected register |
| `Crc64.FeedBits` | src/crc/crc64_redis.c:85-95 | the eight turns of the mask loop feed the bits of one byte, lowest first |
| `Crc64Algebra.ReflectInvolution` | src/crc/crc64_redis.c:42-70 | reflecting a word twice gives the word back |
| `Crc64Algebra.FeedByteReflected` | src/crc/crc64_redis.c:85-95 | on the reflected register, feeding a byte is adding it and pushing eight zero bits |
| `Crc64Algebra.BitFoldIsFold` | src/crc/crc64_redis.c:79-102 | the whole bit-by-bit loop, reflected, is the byte fold |
| `Crc64Algebra.ZeroBitsLinear` | src/crc/crc64.c:214-250 | pushing zero bits is linear over exclusive-or, which is why a matrix can do it |
| `Crc64Algebra.ZeroBitsAdd` | src/crc/crc64.c:192-212 | m zero bits and then n are m + n zero bits |
| `Crc64Algebra.MergeBlocks` | src/crc/crc64.c:214-250 | the checksum of two blocks is the first pushed through the zeros of the second, plus the second |
| `Crc64Algebra.TableStep` | src/crc/crc64.c:374-377 | one byte through table 0 and a shift is eight zero bits after adding the byte |
| `Crc64Algebra.SliceByEight` | src/crc/crc64.c:320-328 | eight table slices of a word are its push through 64 zero bits |
| `Crc64Algebra.FoldWord` | src/crc/crc64.c:316-328 | adding a little-endian word and pushing 64 zero bits folds its eight bytes |
| `Crc64.InitTables` | src/crc/crc64.c:258-279 | table k at n is byte n pushed through k + 1 zero bytes |
| `Crc64.StepByte` | src/crc/crc64.c:374-377 | the byte step folds one byte |
| `Crc64.StepWord` | src/crc/crc64.c:316-328 | the word step folds eight bytes |
| `Gf2Matrix.TimesSwitch` | src/crc/crc64.c:47-112 | four bits at a time, with early exit, is the full matrix product over GF(2) |
| `Gf2Matrix.TimesApplies` | src/crc/crc64.c:47-112 | a matrix whose columns are the images of the unit vectors applies the operator to every vector |
| `Gf2Matrix.Square` | src/crc/crc64.c:172-177 | the square of the matrix for n zero bits is the matrix for 2n |
| `Crc64Speed.OneBitMatrix` | src/crc/crc64.c:192-201 | the polynomial and the shifted ones are the matrix for one zero bit |
| `Crc64Speed.CombineCache.Init` | src/crc/crc64.c:192-212 | row k of the cache is the operator for 2^k zero bytes, for all 64 rows |
| `Crc64Speed.CombineCache.Combine` | src/crc/crc64.c:225-250 | combining is the push through 8 * len2 zero bits plus crc2, filling the cache when it is empty |
| `Crc64Speed.CombineCache.PushZeros` | src/crc/crc64.c:235-245 | one product for each set bit of the length pushes exactly that many zero bytes |
| `Crc64Speed.RunThree` | src/crc/crc64.c:383-396 | three parallel streams each fold their own segment |
| `Crc64Speed.FoldThree` | src/crc/crc64.c:379-401 | three streams merged are the fold of the whole stretch |
| `Crc64Speed.FoldTwo` | src/crc/crc64.c:402-421 | two streams merged are the fold of the whole stretch |
| `Crc64Speed.Crcspeed64Little` | src/crc/crc64.c:365-439 | for every buffer, register, alignment and pair of cutoffs the result is the byte-at-a-time fold |
| `Crc64Speed.FastEqualsBitByBit` | src/crc/crc64_redis.c:79-102 | from a zero register that fold is what the bit-by-bit routine returns |
| `Crc64Check.OneBit` | src/crc/crc64_redis.c:6-22 | the polynomial as numbers: one zero bit maps 1 to 0x95ac9329ac4bc9b5, one set bit enters as 0xad93d23594c935a9 |
| `Crc64Check.CheckValue` | src/crc/crc_test.c:33-46 | the fold of "123456789" from zero is 0xe9c6d914c4b8d9ca |
| `Crc64Check.CheckBitByBit` | src/crc/crc64_redis.c:79-102 | the bit-by-bit routine returns that value |
| `LzfFormat.CopyBackContents` | src/lzf/lzf_d.c:117-149 | a back reference, overlapping or not, appends bytes each equal to the one dist before it |
| `LzfFormat.DecodeConcat` | src/lzf/lzf_d.c:35-152 | decoding two streams after one another is decoding their concatenation |
| `LzfFormat.MatchIsCopy` | src/lzf/lzf_c.c:176-233 | bytes that match earlier bytes are what the back reference copies |
| `Lzf.Decompress` | src/lzf/lzf_d.c:27-155 | the output is that of the token stream, or zero exactly when the stream is bad or does not fit |
| `Lzf.CopyReference` | src/lzf/lzf_d.c:113-149 | the block copy for disjoint areas and the byte loop for overlapping ones agree |
| `Lzf.MatchLength` | src/lzf/lzf_c.c:177-220 | the match found is true and ends where the bytes differ or at the exact length that the comparisons reach |
| `LzfTable.NextRolls` | src/lzf/lzf_c.c:50-59 | whatever came before, the slot is the hash of the three bytes at the position alone |
| `LzfTable.Candidate` | src/lzf/lzf_c.c:159-173 | a match if and only if the slot points at an earlier place but the first, at most 8192 back, with the same three bytes; astray if and only if the distance wraps |
| `Lzf.Step` | src/lzf/lzf_c.c:152-284 | one turn: a reference to the repetition, of the length described, exactly when the slot points at one, a literal otherwise; the bytes written, the table after it and when there is no room, all exact |
| `LzfPack.MatchIs` | src/lzf/lzf_c.c:177-220 | a length that stops at a difference or at the reach is the one the stream has |
| `LzfTable.ProgressReference` | src/lzf/lzf_c.c:174-257 | in an input of one repeated byte every reference but the last covers 264 bytes |
| `Lzf.Compress` | src/lzf/lzf_c.c:112-304 | for any hash table and any byte beyond the input, the result is exactly the stream that input, table, place and room determine; n > 0 fits the buffer and decodes to the input, n is at most in_len + in_len / 32 + 1, and enough room never fails; one repeated byte k times takes at most 9 + 3 * (k / 264) bytes; a wild read takes an input in the lowest 8 KB of memory |
| `Lzf.LowInput` | src/lzf/lzf_c.c:159-172 | for every input of three bytes or more that lies there, a hash table that leads the first look astray |
| `Lzf.PutLiteral` | src/lzf/lzf_c.c:270-283 | a literal keeps the output a pending encoding of the input so far, and keeps the amortised size bound |
| `Lzf.TakeMatch` | src/lzf/lzf_c.c:174-257 | a match keeps both, and pays for the literal run it cuts short |
| `Lzf.RoundTrip` | src/lzf/lzf_c.c:112-304 | compressing and decompressing into a buffer of the original size returns the original |
| `RaxTree.GetPlug` | src/rax/rax.c:552-884 | replacing the subtree at the end of a path changes exactly the keys that go through it |
| `Rax.LowWalk` | src/rax/rax.c:167-228 | the walk stops at the only place where the key can be, with the path to it |
| `Rax.StopDecides` | src/rax/rax.c:1718-1728 | where the walk stopped decides whether and with which value the key is stored |
| `Rax.Find` | src/rax/rax.c:1718-1728 | find returns what the map of the tree holds |
| `RaxInsert.AddChildGet` | src/rax/rax.c:333-523 | a new edge adds exactly the keys behind it and changes no other |
| `RaxInsert.SplitGet` | src/rax/rax.c:661-768 | splitting a compressed node before the byte that differs keeps the map (ALGORITHM 1) |
| `RaxInsert.CutGet` | src/rax/rax.c:769-829 | cutting a compressed node where the key ends adds exactly that key (ALGORITHM 2) |
| `RaxInsert.Grow` | src/rax/rax.c:831-862 | the missing nodes are added without changing the map, and lead to the key |
| `RaxInsert.Insert` | src/rax/rax.c:552-884 | one binding more or changed and no other, previous value and node count exact, compression kept |
| `RaxRemove.RemoveChildGet` | src/rax/rax.c:943-1012 | dropping the edge to an empty child changes no key |
| `RaxRemove.Prune` | src/rax/rax.c:1062-1097 | the upward loop frees the branch that holds nothing and keeps the map |
| `RaxRemove.ChainMerges` | src/rax/rax.c:1156-1228 | a chain of links stands for what one compressed node with all its bytes stands for |
| `RaxRemove.CountChain` | src/rax/rax.c:1169-1181 | the capped scan counts the links and bytes up to the cap |
| `RaxRemove.CapOrAll` | src/rax/rax.c:1172-1212 | the two scans agree if and only if the cap is not reached, and chains that fit never reach it |
| `RaxRemove.CollectChain` | src/rax/rax.c:1199-1213 | the scan without a cap collects the same chain |
| `RaxRemove.MergedTrims` | src/rax/rax.c:1184-1228 | a chain replaced by one node with its first bytes and its end: every key behind it goes through all its bytes, is found without the dropped ones, and nothing else changes; counts exact |
| `RaxRemove.TrimsSomething` | src/rax/rax.c:1184-1228 | that is the same map if and only if no byte is dropped |
| `RaxRemove.Recompress` | src/rax/rax.c:1151-1231 | the merged node has the bytes the first scan counted and the end the second one reached; bytes are dropped if and only if the first scan found something to merge and then met the cap, and the copy leaves the allocation if and only if they do not fit the padding and the pointer either; nodes counted exactly, and chains that fit leave no two links in a row |
| `RaxRemove.Remove` | src/rax/rax.c:1039-1234 | for every tree: what every key is found under afterwards, and that it is one binding less and no other if and only if the removal makes no chain that overruns its node; old value, element and node counts exact in both cases; with keys of at most 536870911 bytes never an overrun, and two links in a row are left if and only if the key ends at a compressed node next to a link |
| `RaxRemove.RemoveFoo` | src/rax/rax.c:1124-1133 | the example of the comment: two links stay where it shows one |
| `RaxRemove.RemoveOverlong` | src/rax/rax.c:1172-1213 | for every n from 1 to 536870911 a well-formed tree with a key n bytes longer than a node: removing another key drops those n bytes, and for n > 13 the copy leaves the allocation |
| `RaxMerged.FooBar` | src/rax/rax.c:1124-1133 | the tree of the example is maximally compressed before, and the removal is of the kind that leaves a chain |
| `RaxMerged.MergedPlug` | src/rax/rax.c:1108-1122 | another subtree keeps the tree merged if and only if it is merged and puts no link behind a link |
| `RaxMerged.LeavesPlug` | src/rax/rax.c:1098-1102 | the condition on tree and key is the one on the node and its neighbours |
| `RaxMap.Tree.Insert` | src/rax/rax.c:552-884 | the object's map, return code, old value, numele and numnodes after an insertion |
| `RaxMap.TrimmedHolds` | src/rax/rax.c:1184-1228 | the shortened map has every entry under its shortened key, as many as before, and nothing else |
| `RaxMap.Tree.Remove` | src/rax/rax.c:1039-1234 | exactly when the removal overruns a node and when it leaves the allocation; the object's map is the one without the key if and only if there was no overrun, and otherwise the shortened one; return code, old value, numele and numnodes exact |
| `RaxMap.Tree.Find` | src/rax/rax.c:1718-1728 | the value the map holds |
| `RaxMap.Tree.Run` | src/rax/rax.c:552-1234 | any sequence of operations, up to the first removal that overruns a node: the tree is the map the sequence builds and every outcome is the map's; the run ends early only at such a removal of a stored key, which leaves another map; with keys of at most 536870911 bytes it goes to the end, and insertions alone keep the tree maximally compressed |
| `RaxMap.Tree.Free` | src/rax/rax.c:1238-1261 | the recursive free ends with a node count of zero |
| `RaxOrder.LessMeans` | src/rax/rax.c:1619-1652 | the order of the keys: a proper prefix comes first, and otherwise the first byte that differs decides |
| `RaxOrder.LeastIsLeast` | src/rax/rax.c:1329-1350 | going down the first edges reaches the least key |
| `RaxOrder.GreatestIsGreatest` | src/rax/rax.c:1432-1446 | going down the last edges reaches the greatest key |
| `RaxOrder.NextEdge` | src/rax/rax.c:1380-1406 | the least key behind the next larger edge is the next key |
| `RaxOrder.PrevEdge` | src/rax/rax.c:1490-1512 | the greatest key behind the next smaller edge is the previous key |
| `RaxOrder.MissedByte` | src/rax/rax.c:1619-1652 | where the search key leaves a compressed node decides on which side of it all its keys lie |
| `RaxOrder.EndedInside` | src/rax/rax.c:1653-1681 | a search key that ends inside a compressed node lies before everything below it |
| `RaxIterator.Iterator.NextStep` | src/rax/rax.c:1314-1410 | moves to the least key above the current one, or reports the end exactly when there is none |
| `RaxIterator.Iterator.PrevStep` | src/rax/rax.c:1452-1523 | moves to the greatest key below the current one, or reports the end exactly when there is none |
| `RaxIterator.Iterator.SeekGreatest` | src/rax/rax.c:1432-1446 | ends on the greatest key of the subtree |
| `RaxIterator.Iterator.SeekAbove` | src/rax/rax.c:1595-1681 | after a failed walk, lands on the least key above the search key |
| `RaxIterator.Iterator.SeekBelow` | src/rax/rax.c:1595-1681 | after a failed walk, lands on the greatest key below the search key |
| `RaxIterator.Iterator.Seek` | src/rax/rax.c:1529-1688 | for the strings "^", "$", "=", ">", ">=", "<" and "<=" and every key: the least or greatest stored key that each asks for, written out, or the end exactly when there is none; refused exactly when the first character is none of theirs |
| `RaxIterator.Iterator.Next` | src/rax/rax.c:1417-1427 | the key of the seek first, then the next one above |
| `RaxIterator.Iterator.Remaining` | src/rax/rax.c:1417-1427 | repeated next yields every remaining key once, strictly increasing |
| `RaxScan.Scan` | src/rax/rax.c:1417-1688 | for every tree object: "^" scans exactly the keys of its map, ">" and ">=" exactly those above, "$" the one greatest, the others the key asked for and every key above it, once each in order |
| `RaxScan.UpwardScan` | src/rax/rax.c:1529-1688 | where everything above a wanted key is wanted too, the scan gives exactly what is wanted |
| `RaxLayout.AddedHolds` | src/rax/rax.c:333-523 | the memmoves leave exactly the sorted edges, pointers and value with the new ones inserted |
| `RaxLayout.AddChild` | src/rax/rax.c:333-523 | the same as an in-place edit, for every size and padding |
| `RaxLayout.ClosedHolds` | src/rax/rax.c:943-1012 | the memmoves leave exactly the edges, pointers and value without the removed ones |
| `RaxLayout.RemoveChild` | src/rax/rax.c:959-1012 | the same as an in-place edit, with the child found by its pointer |
| `RaxLayout.RemoveOnlyChild` | src/rax/rax.c:948-957 | a compressed node becomes a node without edges and keeps its value |
| `RaxLayout.InNumbers` | src/rax/rax.c:27-48 | the layout as numbers: edges from byte 4, pointers of eight bytes from the first multiple of eight behind them, then the value |
| `RaxNodeBytes.AddChild` | src/rax/rax.c:333-523 | the bytes of a node become the bytes of the node of the tree proofs with the new child |
| `RaxNodeBytes.RemoveChild` | src/rax/rax.c:943-1012 | the bytes of a node become the bytes of the node of the tree proofs without that child |
| `ZiplistFormat.ReadEntry` | src/list/ziplist.c:56-83 | an entry in place reads back its back length and its size, whatever follows it |
| `ZiplistFormat.EncodeConcat` | src/list/ziplist.c:355-451 | a row splits anywhere, the second part starting from the last length of the first |
| `ZiplistFormat.BodyShapes` | src/list/ziplist.c:100-154 | what the readers accept as an entry is exactly the eleven shapes of the format, with their tags and lengths |
| `ZiplistFormat.EntriesAreRow` | src/list/ziplist.c:28-82 | the bytes of a row of entries: back lengths below 254 in one byte, others as 254 and four bytes, and the end byte 255 |
| `ZiplistFormat.RowIsEntries` | src/list/ziplist.c:28-82 | every such row of bytes is one of entries |
| `ZiplistCascade.EntryReads` | src/list/ziplist.c:198-258 | the safe reader accepts every entry in place and returns what was written |
| `ZiplistCascade.RippleFits` | src/list/ziplist.c:374-403 | after the cascade every back length fits the room its entry has |
| `ZiplistCascade.RippleBodies` | src/list/ziplist.c:374-403 | the cascade changes no encoding and no data byte |
| `ZiplistCascade.RippleWidths` | src/list/ziplist.c:354-450 | exactly the entries behind one of 254 bytes or more get a wide back length, and none loses it |
| `ZiplistCascade.Scan` | src/list/ziplist.c:374-403 | the forward loop finds exactly the entries that must grow and corrects the one it stops at |
| `ZiplistCascade.RewriteOne` | src/list/ziplist.c:432-448 | one backward turn moves an entry to its new place with its true back length |
| `ZiplistCascade.Rewrite` | src/list/ziplist.c:430-449 | the backward loop turns the old row with a gap into the grown row |
| `Ziplist.TailMoves` | src/list/ziplist.c:408-420 | how far the last entry moves, whether or not it is itself the last to grow |
| `Ziplist.EntriesInPlace` | src/list/ziplist.c:165-258 | in a ziplist every entry stands at its offset and stores the true length of the one before it, which leads back to it |
| `Ziplist.Ziplist.CascadeUpdate` | src/list/ziplist.c:355-451 | from an entry of changed length: the grown row, with total bytes and tail offset exact |
| `Ziplist.Ziplist.Close` | src/list/ziplist.c:471-502 | the entry behind the run gets its new back length and moves to the run's place; the new tail offset |
| `Ziplist.DeletedBodies` | src/list/ziplist.c:454-527 | the entries left are the old ones minus the run |
| `Ziplist.DeletedWidths` | src/list/ziplist.c:470-527 | the first entry behind the run gets exactly the room it needs, the others keep theirs and grow exactly where they must |
| `Ziplist.Ziplist.StoresHolds` | src/list/ziplist.c:10-28 | every buffer that is a ziplist by its bytes is one of entries, which deletion accepts |
| `Ziplist.Ziplist.Delete` | src/list/ziplist.c:454-527 | deleting any run from a well-formed ziplist gives a well-formed ziplist with the old entries minus the run, said of the bytes alone: tail offset, total bytes, and the count exact unless it was 65535 |
| `ListpackNumber.StringToInt64` | src/listpack/listpack.c:232-291 | succeeds if and only if the string is the canonical decimal of an int64, and returns it |
| `ListpackNumber.DigitsInjective` | src/listpack/listpack.c:232-291 | a decimal text stands for one number only |
| `ListpackNumber.IntRoundTrip` | src/listpack/listpack.c:171-230 | every int64 survives its encoding, whatever follows it |
| `ListpackFormat.StringRoundTrip` | src/listpack/listpack.c:343-359 | every string survives its encoding byte for byte |
| `ListpackFormat.EncodeElement` | src/listpack/listpack.c:293-304 | an integer encoding exactly for the canonical texts of int64, a string encoding otherwise |
| `ListpackFormat.StoredReadsBack` | src/listpack/listpack.c:684-769 | what is stored reads back as the text that was put in, as an integer exactly for canonical texts |
| `ListpackFormat.GroupsReadBack` | src/listpack/listpack.c:506-517 | reading seven-bit groups from the last byte inverts writing them |
| `ListpackFormat.BacklenReadsBack` | src/listpack/listpack.c:306-341 | for all five widths, decoding a back length inverts encoding it |
| `ListpackFormat.DecodeBacklen` | src/listpack/listpack.c:506-517 | the loop reads the groups, or fails on more than five bytes |
| `ListpackBytes.GetMeans` | src/listpack/listpack.c:684-769 | the bytes the reader accepts, and the value it reads, are exactly those of the format written out |
| `ListpackBytes.IntWidth` | src/listpack/listpack.c:171-230 | each width of an integer with its exact range and its first byte |
| `ListpackBytes.IntLeast` | src/listpack/listpack.c:171-230 | no encoding of the integer is shorter, and none other is as short |
| `ListpackBytes.StringLeast` | src/listpack/listpack.c:343-359 | the same for strings with their headers of 6, 12 and 32 bits |
| `ListpackBytes.BacklenIs` | src/listpack/listpack.c:306-341 | the five forms of a back length as numbers |
| `ListpackBytes.HoldsIs` | src/listpack/listpack.c:14-43 | what every edit keeps is exactly: total and count in six bytes, the entries with their lengths behind them, and the end byte 255 |
| `Listpack.EntryAt` | src/listpack/listpack.c:150-169 | every entry in place has its size in front and its back length behind |
| `Listpack.ValidateNext` | src/listpack/listpack.c:519-565 | on any bytes, with sizes of 32 bits: what it accepts can be walked back to where it came from, and when it refuses |
| `Listpack.Accepts` | src/listpack/listpack.c:519-565 | every entry of a listpack passes validation |
| `Listpack.SpliceHolds` | src/listpack/listpack.c:399-457 | replacing whole entries and updating the header is the same edit on the sequence |
| `Listpack.Listpack.Insert` | src/listpack/listpack.c:362-460 | insert before or after, replace and delete are those edits of the sequence; total bytes exact, the count changed by the difference unless it was 65535, refused exactly when too large |
| `Listpack.Listpack.Append` | src/listpack/listpack.c:476-480 | one element more at the end, reading back as what was given |
| `Listpack.Listpack.Prepend` | src/listpack/listpack.c:579-583 | one element more at the front |
| `Listpack.Listpack.RemoveRange` | src/listpack/listpack.c:653-681 | the sequence without the range, and the position behind it |
| `Listpack.Listpack.First` | src/listpack/listpack.c:572-577 | the first entry, or nothing exactly for an empty list |
| `Listpack.Listpack.Next` | src/listpack/listpack.c:615-620 | the next entry, or nothing exactly at the last |
| `Listpack.Listpack.Prev` | src/listpack/listpack.c:624-632 | the entry before, or nothing exactly at the first |
| `Listpack.Listpack.Last` | src/listpack/listpack.c:635-638 | the last entry, or nothing exactly for an empty list |
| `Listpack.Listpack.Value` | src/listpack/listpack.c:775-786 | the value of the entry at a position |
| `Listpack.Listpack.Length` | src/listpack/listpack.c:591-604 | the number of elements, repairing the count when it can |
| `Listpack.Listpack.Forward` | src/listpack/listpack.c:615-620 | the forward walk visits every entry in order |
| `Listpack.Listpack.Backward` | src/listpack/listpack.c:624-638 | the backward walk visits exactly the reverse |
| `Quicklist.CompressNode` | src/list/quicklist.c:68-98 | a node of 48 bytes or more is compressed if and only if what lzf_compress makes of it is smaller by more than eight bytes, and then holds that; it stands for the same bytes; a node of one repeated byte is compressed |
| `Quicklist.DecompressNode` | src/list/quicklist.c:113-130 | decompression never fails and gives the original bytes |
| `Quicklist.PackedForced` | src/list/quicklist.c:191-212 | compressing the nodes just beyond the depth after the ends were unpacked meets the guidelines |
| `Quicklist.ForcedGuided` | src/list/quicklist.c:138-213 | after the pass the ends are raw and exactly the inner nodes have been tried |
| `Quicklist.GrownNearly` | src/list/quicklist.c:223-263 | a new node at either end shifts only one node across the depth |
| `Quicklist.QuickList.Force` | src/list/quicklist.c:142-213 | the loop over next and prev from both ends unpacks the ends and compresses the next nodes, whatever the state before |
| `Quicklist.QuickList.InsertNode` | src/list/quicklist.c:227-263 | a node linked in at either end, all pointers right, with the guidelines met again |
| `QuicklistLinks.LinkNode` | src/list/quicklist.c:230-257 | the pointer writes link the node in at its place, or as the only one, with all links right |
| `Quicklist.StoredLength` | src/list/quicklist.c:333-341 | the size estimate for an insertion is at most six bytes short |
| `Quicklist.QuickList.PushEnd` | src/list/quicklist.c:415-418 | the end node takes the element, and its count stays within 16 bits |
| `Quicklist.QuickList.EndNode` | src/list/quicklist.c:268-343 | when the end node takes another element, in numbers: 4 to 64 KB or 8 KB and the fill |
| `Quicklist.QuickList.Push` | src/list/quicklist.c:407-456 | the element at that end and nothing else changed; a new node exactly when the end node has no room, plain exactly from 1 GB on; ends raw, counts below 32768, the total count exact |
| `Quicklist.QuickList.PushAll` | src/list/quicklist.c:407-473 | after any run of pushes the elements are those pushed, in their order |
| `Quicklist.ReadAll` | src/list/quicklist.c:482-516 | following the next pointers and decompressing on the way gives exactly the elements |
| `DictTable.GraphSize` | src/dict/dict.h:107-107 | the number of entries is the number of bindings |
| `Dict.NextExp` | src/dict/dict.c:337-347 | the least power of two from four on that is no smaller than the size |
| `Dict.Dict.Expand` | src/dict/dict.c:138-186 | a new table at once or to rehash into, the map unchanged; refused if and only if a rehash is on, there are more entries than that, the size is above 2^60 or the table has it already |
| `Dict.Dict.ResizeIf` | src/dict/dict.c:510-519 | shrinks only with the setting DICT_RESIZE_ENABLE and no rehash on, the map unchanged; otherwise refuses and changes nothing |
| `Dict.Dict.Resize` | src/dict/dict.c:510-519 | with the setting the code has, always refuses and changes nothing |
| `Dict.Dict.MoveBucket` | src/dict/dict.c:218-233 | all entries of one bucket move to the new table, none lost or doubled |
| `Dict.Dict.Rehash` | src/dict/dict.c:204-250 | the map never changes; a call passes n buckets with entries, or fewer and 10 * n empty ones, unless it ends the rehash; the result says whether there is more |
| `Dict.Dict.RehashStep` | src/dict/dict.c:261-263 | one step unless paused |
| `Dict.Dict.ExpandIfNeeded` | src/dict/dict.c:363-383 | the map unchanged; four buckets to begin with, the next power of two exactly when there are as many entries as buckets, and otherwise nothing; refused exactly from 2^60 entries on |
| `Dict.Dict.Locate` | src/dict/dict.c:402-415 | the chain walk over one or two tables finds the key if and only if the map has it |
| `Dict.Dict.Add` | src/dict/dict.c:285-316 | adds exactly the new keys, and reports the value of an existing one; starts the larger table when it must and otherwise advances the rehash |
| `Dict.Dict.Find` | src/dict/dict.c:419-438 | the map's value, the map unchanged, and the rehash one step further |
| `Dict.Dict.Delete` | src/dict/dict.c:607-642 | removes exactly that key and returns its value, with the rehash one step further |
| `Dict.Dict.Run` | src/dict/dict.c:138-642 | any interleaving of additions, lookups, deletions, expansions, rehash steps and pauses is the same run on one map, answer for answer, up to an addition that finds 2^60 entries or more and no room |
| `DictIterator.Iterator.HasNext` | src/dict/dict.c:658-692 | moves to the next entry of either table; false exactly when none is left |
| `DictIterator.Iterator.Next` | src/dict/dict.c:694-704 | follows a null entry if and only if the iteration is not over, nothing was read and there is no entry; otherwise returns the entry moved to, or moves by itself when it was read already |
| `DictIterator.NextFirst` | src/dict/dict.c:694-733 | the first call on a new iterator is that case, whatever the dictionary holds |
| `DictIterator.AllBindings` | src/dict/dict.c:723-733 | a new iterator yields every binding once and nothing else |
| `LinkedList.OrderWith` | src/list/list.c:149-176 | the two writes of an insertion keep all pointers in order |
| `LinkedList.OrderWithout` | src/list/list.c:182-195 | the two writes of a deletion keep all pointers in order |
| `LinkedList.List.AddHead` | src/list/list.c:103-121 | a new first node, all links right, no value changed |
| `LinkedList.List.AddTail` | src/list/list.c:129-147 | a new last node |
| `LinkedList.List.Insert` | src/list/list.c:149-176 | a new node before or after one of the list |
| `LinkedList.List.Delete` | src/list/list.c:182-195 | the list without that node |
| `LinkedList.List.MoveHead` | src/list/list.c:457-475 | that node first, the others in their order |
| `LruCache.Cache.Get` | src/cache/lru_cache.c:22-30 | the pair of the key, which becomes the most recently used |
| `LruCache.Cache.Put` | src/cache/lru_cache.c:32-45 | the binding, most recently used; 0 for a known key and 1 for a new one; -1 only for a new key at 2^60 entries or more, with the pair first in the list, the index without it and all else as before |
| `LruCache.Cache.LooseIsBroken` | src/cache/lru_cache.c:41-44 | the cache is then not consistent any more |
| `LruCache.Cache.Remove` | src/cache/lru_cache.c:47-53 | the map without the key, the order of the others kept |
| `LruCache.Cache.Pop` | src/cache/lru_cache.c:55-59 | removes exactly the key whose last use is the longest ago; follows a null tail exactly when the cache is empty |
| `LruCache.Cache.Run` | src/cache/lru_cache.c:22-59 | after any run of get, put, remove and pop, up to a pop of an empty cache or a put that fails at 2^60 entries: the bindings, the time of last use of every key, every answer and the key each pop removed are those of the history, and the list is in the order of last use |
| `CacheHistory.OldestIs` | src/cache/lru_cache.c:55-59 | the key whose last use is the longest ago is unique |
| `LruCache.Cache.Len` | src/cache/lru_cache.c:18-20 | the number of bindings |
| `LruCache.DropIndexed` | src/cache/lru_cache.c:47-59 | without a node and its key the index still points every key at its own node |
| `LruCache.UseByUse` | src/cache/lru_cache.c:22-39 | moving a node to the head keeps the list sorted by last use |
| `SdsArgs.CatRepr` | src/sds/sds.c:410-433 | appends the quoted form of the bytes |
| `SdsArgs.EscapeTurn` | src/sds/sds.c:503-537 | inside quotes, the escape of any byte reads as that byte |
| `SdsArgs.SplitArgs` | src/sds/sds.c:486-594 | the loops compute the tokens of the line, or nothing for unbalanced quotes |
| `SdsArgs.ReprToken` | src/sds/sds.c:495-579 | a quoted string before a blank or the end is one token, the string |
| `SdsArgs.RoundTrip` | src/sds/sds.c:404-594 | every list of byte strings, quoted and joined with spaces, splits into itself |
| `SdsArgs.BareWord` | src/sds/sds.c:553-571 | a word without quotes is a token as it stands |
| `SdsArgs.SingleQuoted` | src/sds/sds.c:538-552 | in single quotes every byte but zero and the backslash stands for itself, and an escaped quote for a quote |
| `SdsArgs.Unbalanced` | src/sds/sds.c:532-534 | a quote that is never closed is an error, whatever is inside |
| `SdsArgs.Glued` | src/sds/sds.c:527-531 | a closed quote followed by anything but a blank is an error |
| `SdsText.WrittenAs` | src/sds/sds.c:410-433 | what every byte is written as, in characters |
| `SdsText.InQuotes` | src/sds/sds.c:499-537 | what every character inside double quotes does: escapes, hexadecimal digits of both cases, the closing quote and the end |
| `SdsText.InSingleQuotes` | src/sds/sds.c:538-552 | the same inside single quotes |
| `SdsText.OutsideQuotes` | src/sds/sds.c:553-571 | and outside quotes |
| `SdsText.BetweenArguments` | src/sds/sds.c:486-494 | blanks between arguments are passed, and the end or a zero byte ends the line |
| `SharedMutex.StepKeeps` | src/mutex/mutex.c:98-144 | every step of every thread keeps the invariant |
| `SharedMutex.RunKeeps` | src/mutex/mutex.c:98-144 | and so does every run |
| `SharedMutex.Exclusion` | src/mutex/mutex.c:98-122 | in every run of any number of threads, a writer holds one exclusive lock and nothing else, and nobody else holds any |
| `SharedMutex.NoLostWakeup` | src/mutex/mutex.c:107-133 | whoever sleeps waits for a lock that some thread holds |
| `SharedMutexCalls.NeverReturns` | src/mutex/mutex.c:98-122 | a call that a self-waiting thread excludes does not get through, however the run goes on |
| `SharedMutexCalls.LockTwice` | src/mutex/mutex.c:98-105 | the run from the start in which a thread asks again for the exclusive lock it has, and that call never returns |
| `SharedMutexCalls.Bystander` | src/mutex/mutex.c:115-122 | in that run another thread that holds nothing asks for a shared lock, and never returns either |
| `SharedMutexCalls.GetsHome` | src/mutex/mutex.c:98-144 | any other call gets through by a run in which threads only go on with their operations and give locks back |
| `SharedMutexCalls.ReturnsExactly` | src/mutex/mutex.c:98-144 | from every reachable state a call can return if and only if no thread that waits for itself excludes it |
| `SharedMutexCalls.GetsThrough` | src/mutex/mutex.c:98-144 | a critical section that does not have to wait: what the thread holds afterwards, and the measure that falls |

## Left out

- Out of memory: allocation always succeeds in rax, dict, listpack, list and sds; allocator capacity is not modelled, so buffers have exactly the size they need.
- RaxMap.Tree.Remove: after a copy that leaves the allocation nothing is promised of the object, since other memory may be lost; the tree of `RaxRemove.Remove` is then what the node and the others hold if it is not.
- Rax nodes are values in the map and order proofs, and a parent stack is a path of nodes: aliasing and links patched in place are not captured there. The bytes of a node are captured in `RaxLayout` and `RaxNodeBytes`, for 64-bit pointers. `node_cb` callbacks and the null-value flag are left out; the iterator compares with the head by its empty stack.
- Ziplist.Ziplist.Delete: the header is kept as fields, not as bytes, and the resulting ziplist must be smaller than 4 GB, which the code asserts.
- Ziplist insertion is not in the source, and finding an entry by index is left out.
- Listpack.Listpack.Insert: for a result of more than 32 bits the code asserts, and returns null only where assertions are off; the iterator object and printing are left out. src/list/listpack.c has the same format and is modelled once.
- Quicklist.QuickList.InsertNode: inserts at either end, as pushes do. Bookmarks, printing and release are left out, and node flags for temporary decompression are never set by pushes.
- Crc64Speed.Crcspeed64Little: little-endian, with lengths below 2^64; the big-endian form and the vector form of the matrix product are platform alternatives. The cache is that of the reversed Jones polynomial.
- Dict.Dict.Add: keys are compared by equality and the hash is any function; from 2^60 entries on an addition can fail, and the count must stay an unsigned long. Chains are sequences, and the value is stored in the same call. Clearing, entry metadata and the fingerprint are left out.
- Dict.Dict.Rehash: the limit on empty buckets, n * 10, is unbounded here and an int in the code.
- LruCache.Cache.Put: the count must stay an unsigned long. The pair of a node is a value, so a caller who keeps the pair that get returned does not see later changes.
- List join, rotation, duplication, search and iteration use the same pointer steps and are left out.
- SharedMutex.Exclusion: the counters are unbounded, and threads release only what they hold.
- sds buffers, headers and the other string functions are left out; sequences of bytes stand for them.
- The rest of the library: event loop, network, files, logging, configuration, JSON, coroutines, bitmaps, pools, the other checksums and the storage engines.
