# HFS Plus for FreeBSD: a verified model

This project models the parts of the FreeBSD port of HFS Plus whose behaviour is hardest to see in the
code, and proves what they promise. `dafny verify dfyconfig.toml` checks all of it.

* **File data** (`FileData`, `PosixFile`). The read, write and truncate loops work block by block on buffers
  that may have been obtained without reading. The fork refines a flat byte sequence with POSIX meaning.
* **Catalog** (`CatalogModel`, `CatalogSpec`, `CatalogProofs`, `Catalog`, `CatalogRuns`, `CatalogLookup`,
  `CatalogSession`, `CatalogFailures`). Create, rename and delete with all their undo paths, as transactions
  on a map from folded keys to records. Every B-tree operation may fail; the fault arguments say which ones
  do. The case folding is a parameter of which nothing is assumed. The catalog is valid if threads and records
  correspond one to one and the folders form a tree rooted at id 2. A session turns calls into runs.
* **Node byte order** (`ByteOrder`, `Held`, `ShapeChain`, `NodeLayout`, `NodeSwap`, `NodeFrame`, `BTNode`,
  `NodeUnique`, `NodeFields`, `NodeBuffer`). A native node has a shape that lists its fields from the first byte to the
  last; its big-endian form turns each field end for end. The swap works in place and finds its way through
  lengths, types and offsets that it is itself turning; the model keeps the order in which it does so. What
  that means for the values of all fields is stated by offset and width, apart from the shapes. The life of a cached node is a class whose runs follow a plain memory cell.
* **Name codecs** (`Utf8Encode`, `Utf8Decode`, `Utf8RoundTrip`, `Utf8Malformed`, `Composition`, `HangulTrip`,
  `MacRoman`). UTF-8 in both directions, its relation to RFC 3629 and RFC 2781, Hangul arithmetic as in section 3.12 of
  the Unicode Standard, and MacRoman. The Hangul rows of the Unicode tables and the MacRoman tables are
  concrete; the other decomposition tables are parameters.
* **Invalid ranges** (`RangeList`). A sorted list of ranges with an infinite end as a set of offsets.
* **Sizes and copying** (`BTreeExtend`, `ExtentCopy`, `Newfs`). Growing a B-tree file, the resumable copy
  into a sparse bundle, and the default sizes of a new volume.

`Arith` and `Bytes` hold the arithmetic the others share. The machine is taken to be little-endian.
Contents of buffers obtained without reading are arbitrary. Answers of the allocator, blocks that cannot be
had from a device, short transfers and interruptions are arguments, so that results can be told exactly.

## Findings

Places where the code does not do what its comments, its documentation or a reader would expect. The model
follows the code; the members named say exactly when the expectation holds, and, unless it takes a catalog
without free ids or a certain answer of the allocator, give an input for which it does not.

* Adding a range works if and only if `RangeList.AddWorks`: the new entry goes behind the entry that stopped
  the scan, and collapsing takes over the end of a neighbour that may be shorter (`AddIff`, `AddCanFail`).
* The scan does not report containment when entry and range are both infinite (`ContainmentReported`,
  `ContainmentMissed`).
* Renaming to a name another node of the same folder has returns success and renames nothing
  (`Volume.Rename`, `ClashHappens`, `RenameOntoOther`).
* When the second search of such a rename fails, the source is put back with the encoding hint of the new
  name, so the catalog is not quite as it was (`RestoredIff`, `HintHappens`, `RenameLeavesHint`).
* Giving the root folder a name that folds to the empty name breaks the catalog; all other completed renames
  keep it valid exactly if the walk to the root accepts them (`RenameValidIff`, `BlankRoot`).
* The id search of create ends exactly if some user id is free (`Volume.InsertThread`, `NoFreeIdNeverStops`).
* Should the allocator report success without adding space, truncate clips the length (`Fork.ReserveOrClip`).
* A rename that only changes the case of a name keeps the old encoding hint, although the new one was already
  set in memory (`StoredHint`, `Volume.MoveRecord`).
* Bytes behind the first one of a UTF-8 character are not checked, and a difference below zero wraps, so that
  C0 41 is taken for U+FFC1 (`BadIff`, `StrayByteTaken`).
* A decoded name that fills its buffer exactly is reported as too long if it ends in a Hangul syllable
  (`Decomposing`, `Composing`, `ExactRoomFails`).
* Extending a B-tree file can reach its panics if the file does not end where its space ends (`SafeIff`,
  `PanicHappens`).
* It can also report a full disk although there is enough room in one piece, because the amounts it tries are
  halved (`RoomFoundIff`, `RoomMissed`).

## Model

| member | source | states |
|---|---|---|
| `PosixFile.RunIsLastByte` | hfsplus/hfs_readwrite.c:357-802 | over any history of writes and truncations, a byte of the flat file is the one its last surviving write gave it, and zero if there is none |
| `FileData.Fork.ReadIsSlice` | hfsplus/hfs_readwrite.c:102-217 | what the loop returns is the slice of the flat file, and each byte is the one the history of the fork determines, so no unread buffer content is ever visible |
| `FileData.Fork.ReadFragment` | hfsplus/hfs_readwrite.c:143-208 | one turn of the read loop returns a non-empty piece of the fork, clipped at the block, the end of file and the request |
| `FileData.Fork.ReadFragments` | hfsplus/hfs_readwrite.c:143-208 | the read loop returns the bytes between the offset and the end of the request or of the file, and stops exactly at the first byte whose block cannot be read |
| `FileData.Fork.Read` | hfsplus/hfs_readwrite.c:102-217 | a read returns exactly the slice of the flat file, clipped at its end, up to the first byte that cannot be had; the error of every call |
| `FileData.Fork.Reserve` | hfsplus/hfs_readwrite.c:503-522 | the space loop of a write asks the allocator exactly while there is too little and its answers help; it ends with room for the last byte or the error that the last answer gives, and changes no byte of the file |
| `FileData.AskedOnce` | hfsplus/hfs_readwrite.c:503-522 | how often the allocator is asked is decided by its answers |
| `FileData.Fork.TransferBlock` | hfsplus/hfs_readwrite.c:673-773 | one turn of the copy loop: the gap past end of file becomes zero, the data lands in place, all other old bytes stay, although the block may have been obtained unread |
| `FileData.Fork.Transfer` | hfsplus/hfs_readwrite.c:673-773 | wherever the copy loop stands or is stopped, the file is a POSIX operation away from what it was: the write of a prefix of the data, or a part of the zeros before it |
| `FileData.Fork.WriteAt` | hfsplus/hfs_readwrite.c:673-802 | the POSIX write, or up to the first byte that cannot be had the operations it came to, taken back to the old length for IO_UNIT |
| `FileData.Fork.Write` | hfsplus/hfs_readwrite.c:357-802 | a write is the POSIX write, leaves the file as it was, or is an interrupted write, and which of them the arguments, the answers of the allocator and the blocks that cannot be had decide; the error of every call |
| `FileData.Fork.ClearBlock` | hfsplus/hfs_readwrite.c:1196-1230 | one turn of the zeroing loop zeroes what it counts and keeps everything before it; it fails exactly if it has to read a block that cannot be had |
| `FileData.Fork.Grow` | hfsplus/hfs_readwrite.c:1196-1236 | growing pads with zeros, or fails and leaves the file as it was, exactly if a block at one of the ends cannot be read |
| `FileData.Fork.Shrink` | hfsplus/hfs_readwrite.c:1239-1265 | shrinking keeps exactly the prefix, even though dropped buffers leave the freed bytes unspecified; space is given back only with IO_NDELAY, and then all but the last block |
| `FileData.Fork.ReserveOrClip` | hfsplus/hfs_readwrite.c:1107-1117 | the space loop of truncate, asking as that of a write does: the length is clipped to the space there is when the allocator succeeds without adding any, and errors are passed on |
| `FileData.Fork.Truncate` | hfsplus/hfs_readwrite.c:1015-1371 | truncate is the POSIX ftruncate to the requested length, or to all the space there is; on failure nothing changes; shortening never fails, and the error of every other call is that of the allocator or of a block at one of the ends |
| `FileData.BestBlockSizeFit` | hfsplus/hfs_vfsutils.c:708-750 | the logical block size divides the allocation block whenever the physical block does: the page size if possible, else the largest admissible size |
| `FileData.LargestFraction` | hfsplus/hfs_vfsutils.c:730-750 | the countdown finds the largest multiple of the base below the limit that divides the allocation block |
| `Catalog.Volume.InsertThread` | hfsplus/hfs_catalog.c:529-552 | the id search ends whenever a user id is free, across 32-bit wrap-around, with the first free id at or after the next one; it fails exactly if it comes to an id whose thread cannot be inserted |
| `Catalog.Volume.Create` | hfsplus/hfs_catalog.c:479-620 | create adds record and thread under a fresh id; its exact result code; a failed create changes the catalog if and only if the thread was inserted and could not be backed out |
| `Catalog.LoneThread` | hfsplus/hfs_catalog.c:569-581 | a thread that could not be backed out leaves the catalog inconsistent |
| `Catalog.Volume.GetKey` | hfsplus/hfs_catalog.c:1688-1738 | the key found through a thread is that of the node with this id |
| `Catalog.Volume.Delete` | hfsplus/hfs_catalog.c:861-925 | delete removes record and thread; its exact result code; on error nothing changes; the volume stays valid if and only if the thread went too and the folder was empty |
| `Catalog.Volume.WalkToRoot` | hfsplus/hfs_catalog.c:681-709 | the walk ends on every rooted catalog and accepts exactly when the moved folder is not on the way up |
| `Catalog.Volume.CheckMove` | hfsplus/hfs_catalog.c:681-709 | a move is refused exactly when the destination is the folder itself or lies below it |
| `Catalog.Volume.CheckRename` | hfsplus/hfs_catalog.c:655-709 | the checks before anything is touched: names, space, the move |
| `Catalog.Volume.ReplaceVariant` | hfsplus/hfs_catalog.c:749-784 | the exits for a name in use in the same folder: when the case variant is replaced, when the clash passes silently, when it panics, and exactly what is put back otherwise |
| `Catalog.Volume.Respell` | hfsplus/hfs_catalog.c:761-783 | delete and insert under the new spelling: when it is done, and the exact catalog in each of its failures |
| `Catalog.Volume.MoveRecord` | hfsplus/hfs_catalog.c:714-806 | the record moves exactly under Moves, with what it held and the encoding hint of the new name, or its old hint if it was read again as a case variant; short of that the catalog is exactly Restored, unless moving back fails, which is a panic exactly under Undoes |
| `Catalog.Volume.MoveThread` | hfsplus/hfs_catalog.c:808-825 | the thread follows its record; the exact catalog if one of its operations fails |
| `Catalog.Volume.Rename` | hfsplus/hfs_catalog.c:634-851 | rename moves the node with the hint it is to have, or restores the catalog; it refuses missing, overlong and malformed names; short of the point of no return anything is left behind if and only if a new encoding hint is; a clash in one folder reports success with nothing renamed; its exact result code |
| `CatalogSpec.RestoredIff` | hfsplus/hfs_catalog.c:748-806 | a stopped rename leaves something else than it found if and only if the second search failed for a name in use, the record had been taken out, and the hint differs |
| `Catalog.RestoredStaysValid` | hfsplus/hfs_catalog.c:748-806 | either way the volume stays valid |
| `Catalog.LostThread` | hfsplus/hfs_catalog.c:816-825 | a thread that could not be written behind the point of no return leaves the catalog inconsistent |
| `Catalog.StaleThread` | hfsplus/hfs_catalog.c:810-814 | so does one that could not be removed, unless place and spelling are the same |
| `CatalogProofs.CreatedStaysValid` | hfsplus/hfs_catalog.c:529-620 | create keeps threads and records in one-to-one correspondence and the folders a tree |
| `CatalogProofs.DeletedStaysValid` | hfsplus/hfs_catalog.c:894-918 | deleting an empty node keeps both |
| `CatalogProofs.DeletedValidIff` | hfsplus/hfs_catalog.c:894-918 | deleting a record and its thread leaves a valid volume if and only if nothing was left in the folder |
| `CatalogProofs.RenamedConsistent` | hfsplus/hfs_catalog.c:714-825 | a completed rename keeps the correspondence if and only if it does not give the root a name that folds to nothing |
| `CatalogProofs.RenamedRooted` | hfsplus/hfs_catalog.c:748-825 | an accepted move leaves every folder on a path to the root |
| `CatalogProofs.RefusedMoveDetaches` | hfsplus/hfs_catalog.c:681-709 | every move the walk refuses would cut the folder off from the root |
| `CatalogProofs.RenameValidIff` | hfsplus/hfs_catalog.c:681-825 | the checks are exact: the volume stays valid if and only if the walk accepts and the root is not blanked |
| `CatalogProofs.RehintedStaysValid` | hfsplus/hfs_catalog.c:748-806 | what an interrupted rename can leave, a new encoding hint, keeps the volume valid |
| `Catalog.DanglingThread` | hfsplus/hfs_catalog.c:909-916 | removing a record without its thread breaks the correspondence |
| `CatalogRuns.FreshVolumeValid` | hfsplus/hfs_catalog.c:479-620 | a volume with only its root is valid, so runs have a start |
| `CatalogRuns.NextStaysValid` | hfsplus/hfs_catalog.c:479-925 | every transaction, completed or failed, keeps a volume valid |
| `CatalogRuns.RunStaysValid` | hfsplus/hfs_catalog.c:479-925 | every catalog reachable by creates, renames, deletes and failures is valid |
| `CatalogRuns.StepIds` | hfsplus/hfs_catalog.c:535-613 | each id handed out is at least 16 and had no thread before |
| `CatalogRuns.IdsIncrease` | hfsplus/hfs_catalog.c:602-613 | while the ids-reused bit is clear, later creates hand out larger ids, whatever was deleted |
| `CatalogRuns.NoFreeIdNeverStops` | hfsplus/hfs_catalog.c:535-552 | without a free user id the search meets a thread at every turn for ever |
| `CatalogLookup.LookupsAgree` | hfsplus/hfs_catalog.c:291-340 | lookup by id through the thread and lookup by key give the same node, under its own id, place and spelling |
| `CatalogLookup.LinksResolved` | hfsplus/hfs_catalog.c:426-445 | a hard link is looked up under its own id with what its inode holds and at least one reference, or as itself if there is no inode; its link reference is shown |
| `CatalogLookup.LinksShare` | hfsplus/hfs_catalog.c:1644-1683 | two links to one inode are different nodes with the same contents |
| `CatalogLookup.MissingExactly` | hfsplus/hfs_catalog.c:1688-1738 | an id is reported missing exactly if no node has it |
| `CatalogLookup.ReachableLookupsAgree` | hfsplus/hfs_catalog.c:380-474 | both lookups agree in every reachable catalog |
| `CatalogFailures.ClashHappens` | hfsplus/hfs_catalog.c:755-759 | two files, and a rename of one to the name of the other that no error comes of |
| `CatalogFailures.RenameOntoOther` | hfsplus/hfs_catalog.c:755-759 | that rename reports success and changes nothing |
| `CatalogFailures.HintHappens` | hfsplus/hfs_catalog.c:756-781 | the same with a failing second search: a record with another encoding hint is left |
| `CatalogFailures.RenameLeavesHint` | hfsplus/hfs_catalog.c:756-781 | that rename fails and leaves the new hint |
| `CatalogFailures.BlankedRootHappens` | hfsplus/hfs_catalog.c:714-806 | a folding and a name for the root that folds to the empty name |
| `CatalogFailures.BlankRoot` | hfsplus/hfs_catalog.c:634-851 | that rename succeeds and the volume is no longer valid |
| `CatalogSession.Session.Create` | hfsplus/hfs_catalog.c:479-620 | every call of create adds a step to the run of the volume |
| `CatalogSession.Session.Delete` | hfsplus/hfs_catalog.c:861-925 | every call of delete adds a step |
| `CatalogSession.Session.Rename` | hfsplus/hfs_catalog.c:634-851 | every call of rename adds a step |
| `CatalogSession.Session.IdsDiffer` | hfsplus/hfs_catalog.c:602-613 | ids returned by calls of create differ while the ids-reused bit is clear |
| `CatalogSession.Session.LookupsAgreeNow` | hfsplus/hfs_catalog.c:291-340 | whatever was called before, both lookups agree |
| `ByteOrder.SwapShape` | hfsplus/hfs_endian.c:52-66 | swapping the fields of a structure one by one is turning each of them end for end |
| `ByteOrder.FlipAtTwice` | hfsplus/hfs_endian.c:52-66 | turning a structure twice changes nothing |
| `ByteOrder.FlipAtThen` | hfsplus/hfs_endian.c:68-73 | neighbouring structures may be swapped in either order |
| `NodeSwap.SwapLength` | hfsplus/hfs_endian.c:214-218 | a length is read on the native side of its own swap, in both directions |
| `NodeSwap.SwapUnicode` | hfsplus/hfs_endian.c:257-263 | a counted name: its length is swapped first when swapping, last when unswapping |
| `NodeSwap.SwapPlusExtentKey` | hfsplus/hfs_endian.c:208-225 | key and data position of an HFS Plus extent record |
| `NodeSwap.SwapPlusCatalogKey` | hfsplus/hfs_endian.c:242-263 | key and data position of an HFS Plus catalog record |
| `NodeSwap.SwapHfsKey` | hfsplus/hfs_endian.c:374-388 | standard HFS keys, with their even-rounded length |
| `NodeSwap.SwapPlusThread` | hfsplus/hfs_endian.c:335-347 | thread records, whose name length is among the bytes being swapped |
| `NodeSwap.SwapCatalogBody` | hfsplus/hfs_endian.c:275-351 | each kind of catalog record is turned as a whole; a well-formed one never reaches the panic |
| `NodeSwap.SwapCatalogData` | hfsplus/hfs_endian.c:271-355 | the record type is swapped first when swapping, last when unswapping |
| `NodeSwap.SwapData` | hfsplus/hfs_endian.c:227-240 | index pointers, extents and catalog data |
| `NodeSwap.SwapRecord` | hfsplus/hfs_endian.c:199-363 | a record is turned as a whole although its positions come from bytes being turned |
| `NodeFrame.SwapTable` | hfsplus/hfs_endian.c:107-122 | the offsets table is turned and no offset of a well-formed node is out of range |
| `NodeFrame.SwapFrame` | hfsplus/hfs_endian.c:94-123 | swapping restores descriptor and table, whose length comes from the swapped count |
| `NodeFrame.UnswapFrame` | hfsplus/hfs_endian.c:165-194 | unswapping turns descriptor and table, the count last |
| `BTNode.SwapRecords` | hfsplus/hfs_endian.c:212-356 | the record loop turns every record, in the order of the table |
| `BTNode.SwapBody` | hfsplus/hfs_endian.c:125-163 | records, header record or nothing, by the kind of the node |
| `BTNode.Swap` | hfsplus/hfs_endian.c:74-197 | the big-endian form of any well-formed node of any size becomes that node, and no panic is reached |
| `BTNode.Unswap` | hfsplus/hfs_endian.c:74-197 | any well-formed node becomes its big-endian form |
| `BTNode.RoundTrips` | hfsplus/hfs_endian.c:68-197 | unswap after swap and swap after unswap are the identity |
| `NodeFields.FrameValues` | hfsplus/hfs_endian.c:96-118 | links, record count and record offsets, at their byte offsets, have the same value big-endian on disk and little-endian in memory; every other byte of the frame is the same in both |
| `NodeFields.HeaderValues` | hfsplus/hfs_endian.c:138-158 | so have the fields of a header record |
| `NodeFields.KeyValues` | hfsplus/hfs_endian.c:212-263 | so have the fields of every key |
| `NodeFields.KeyLengths` | hfsplus/hfs_endian.c:212-221 | a key is as long as its first field says, on standard HFS rounded up to an even length |
| `NodeFields.DataValues` | hfsplus/hfs_endian.c:226-356 | so have the fields of every index, extent, folder, file and thread record, listed by offset and width, and no other byte of it differs |
| `NodeFields.FileSizes` | hfsplus/hfs_endian.c:53-66 | the logical sizes of both forks of a file are 64-bit values 88 and 168 bytes into its record |
| `NodeFields.FreeSpaceKept` | hfsplus/hfs_endian.c:120-163 | what lies behind the records is the same in both |
| `NodeUnique.BigDetermines` | hfsplus/hfs_endian.c:74-502 | different well-formed nodes have different big-endian forms, so swapping has one possible result |
| `NodeBuffer.MarkerTells` | hfsplus/hfs_btreeio.c:110-112 | the last 16-bit word is 0x000e in a native node, reads 0x0e00 in a big-endian one and is zero in a cleared one |
| `NodeBuffer.NeverMisread` | hfsplus/hfs_btreeio.c:98-108 | the test for a header of another size never holds of a node that matches its buffer |
| `NodeBuffer.NodeBlock.Fetch` | hfsplus/hfs_btreeio.c:72-129 | a fetched node is native, wherever it came from |
| `NodeBuffer.NodeBlock.FetchEmpty` | hfsplus/hfs_btreeio.c:78-79 | an empty buffer filled by its holder |
| `NodeBuffer.NodeBlock.Write` | hfsplus/hfs_readwrite.c:1390-1420 | what is written is big-endian, whichever order the buffer had |
| `NodeBuffer.NodeBlock.Trash` | hfsplus/hfs_btreeio.c:170-182 | a trashed node falls back to what was written |
| `NodeBuffer.NodeBlock.Run` | hfsplus/hfs_btreeio.c:72-259 | over every run of fetch, change, write-back, sync, trash and reclaim: fetches see the node last stored, in native order, and the disk is always big-endian |
| `Utf8Encode.EncodeSplit` | vfs/vfs_utfconv.c:214-294 | the encoding of a string is that of its parts, wherever it is cut between characters |
| `Utf8Encode.EncodeLen` | vfs/vfs_utfconv.c:146-172 | the computed length is the sum over the units |
| `Utf8Encode.LengthsAgree` | vfs/vfs_utfconv.c:146-172 | the encoder writes the computed length plus one byte per unpaired surrogate |
| `Utf8Encode.EncodeStr` | vfs/vfs_utfconv.c:192-295 | the name is encoded in full exactly if it fits; otherwise the output is the full encoding of a prefix, with room for its terminator; EINVAL exactly for a slash without substitute |
| `Utf8Encode.BuildName` | hfsplus/hfs_catalog.c:1836-1848 | 3n + 1 bytes are never too few, so there is no second attempt |
| `Utf8Decode.DecodeStr` | vfs/vfs_utfconv.c:316-437 | the decoder with its moving pointers computes the recursive decoding, in all three modes, with exact statuses |
| `Utf8Malformed.InvalidIff` | vfs/vfs_utfconv.c:340-437 | EINVAL is returned if and only if a malformed character stands in front of the first NUL and the buffer is not full before it; the output is that of the bytes before it |
| `Utf8Malformed.StatusTells` | vfs/vfs_utfconv.c:334-437 | without decomposition, and with a unit of room for every byte, the status says whether the string is well-formed up to its first NUL |
| `Utf8Malformed.BadIff` | vfs/vfs_utfconv.c:340-390 | exactly which bytes are malformed: first bytes 80 to BF and F8 to FF, characters cut off by the end, values too small for their length |
| `Utf8Malformed.ShortBits` | vfs/vfs_utfconv.c:350-372 | the value of a character of up to three bytes, by the bits of its bytes |
| `Utf8Malformed.LongBits` | vfs/vfs_utfconv.c:374-388 | the surrogate pair of a character of four bytes, by the bits of its bytes |
| `Utf8Malformed.StrayByteTaken` | vfs/vfs_utfconv.c:350-357 | a second byte that is no continuation byte is taken |
| `Utf8Decode.PutSequence` | vfs/vfs_utfconv.c:394-401 | a decomposed character is written as far as there is room |
| `Utf8Decode.PutUnit` | vfs/vfs_utfconv.c:404-422 | a character is appended or composed with the last unit |
| `Utf8RoundTrip.RoundTrip` | vfs/vfs_utfconv.c:334-437 | decoding the encoding of any string gives it back with only colon turned into slash and U+2400 into NUL, unpaired surrogates included |
| `Utf8RoundTrip.ThereAndBack` | vfs/vfs_utfconv.c:192-437 | the same through both routines, in buffers that are just large enough |
| `Utf8RoundTrip.EncodesUtf8` | vfs/vfs_utfconv.c:241-288 | the UTF-16 form of any text is encoded as the octets of section 3 of RFC 3629, apart from the two substitutions |
| `Utf8RoundTrip.PairedIsUtf16` | vfs/vfs_utfconv.c:255-280 | every string without unpaired surrogates is the UTF-16 form (section 2 of RFC 2781) of some text |
| `Composition.MappedValue` | vfs/vfs_utfconv.c:477-498 | binary search returns the value of the entry with the key, or 0 exactly if there is none |
| `Composition.SyllablesDecompose` | vfs/vfs_utfconv.c:106-123 | the bitmap marks every Hangul syllable as decomposable |
| `Composition.JamoCombine` | vfs/vfs_utfconv.c:81-99 | the bitmap marks vowels and trailing consonants as combining and leading consonants as not |
| `Composition.JamoRecombine` | vfs/vfs_utfconv.c:592-615 | combining the jamo of a syllable one by one gives the syllable back |
| `Composition.CombineDecomposes` | vfs/vfs_utfconv.c:559-579 | decomposing what was combined gives the jamo back |
| `HangulTrip.Decomposing` | vfs/vfs_utfconv.c:389-403 | decoding with decomposition spreads every syllable into its jamo, in exactly the buffers that take it: with a unit to spare, or filled exactly by a text that does not end in a syllable |
| `HangulTrip.Composing` | vfs/vfs_utfconv.c:404-415 | decoding with precomposition puts them together again, under exactly the same condition on the composed text |
| `HangulTrip.KoreanTrip` | vfs/vfs_utfconv.c:316-437 | text of Hangul syllables and ASCII survives decomposition, encoding and precomposition unchanged, exactly if both buffers take it |
| `HangulTrip.ExactRoomFails` | vfs/vfs_utfconv.c:394-401 | a name that fits exactly and is reported as too long |
| `MacRoman.MacRomanToUnicode` | hfsplus/hfs_encodings.c:644-680 | at most 62 of the 75 units are used, and they are the decomposed form of the name |
| `MacRoman.UnicodeToMacRoman` | hfsplus/hfs_encodings.c:450-599 | the conversion loop, stepping back over base letters, computes the recursive mapping and its status |
| `MacRoman.HighMapsBack` | hfsplus/hfs_encodings.c:340-443 | the tables of the two directions fit: every character above ASCII maps back to itself |
| `MacRoman.MappedStands` | hfsplus/hfs_encodings.c:450-576 | a unit is mapped only to the character that stands for it, alone or with the letter before it; the currency sign alone goes to the euro sign |
| `MacRoman.FallbackIff` | hfsplus/hfs_encodings.c:569-599 | for a name that fits, fallbacks are reported if and only if some unit has no MacRoman character |
| `MacRoman.UnicodeTrip` | hfsplus/hfs_encodings.c:450-680 | every name of up to 31 bytes survives the trip through decomposed Unicode, without fallbacks |
| `MacRoman.RestoredName` | hfsplus/hfs_encodings.c:257-332 | through UTF-8 only colons change, into slashes |
| `MacRoman.MacRomanToUtf8` | hfsplus/hfs_encodings.c:257-279 | EINVAL exactly for the empty name; the length reported for a name that does not fit is the length it needs |
| `MacRoman.Utf8ToMacRoman` | hfsplus/hfs_encodings.c:320-332 | decoding followed by mapping |
| `MacRoman.Trip` | hfsplus/hfs_encodings.c:257-332 | every non-empty name survives without errors or fallbacks, unchanged if and only if it has no colon |
| `RangeList.RangeListHead.ScanFrom` | hfsplus/rangelist.c:278-354 | the scan ends at the first entry that meets the range, with the right one of the six cases |
| `RangeList.RangeListHead.Scan` | hfsplus/rangelist.c:260-269 | no overlap is reported exactly if the sets of offsets are disjoint |
| `RangeList.CaseByEnds` | hfsplus/rangelist.c:322-345 | the case read off the ends of two ranges is the one their sets of offsets determine |
| `RangeList.ContainmentReported` | hfsplus/rangelist.c:327-340 | containment is reported as such if and only if the range is finite |
| `RangeList.ContainmentMissed` | hfsplus/rangelist.c:327-340 | two infinite ranges for which it is not |
| `RangeList.RangeListHead.RemoveOverlap` | hfsplus/rangelist.c:180-250 | one turn of removal: the entry is dropped, cut or split, and nothing outside the range changes |
| `RangeList.RangeListHead.Remove` | hfsplus/rangelist.c:165-251 | removal is exactly set difference on every well-formed list |
| `RangeList.RangeListHead.AddOverlap` | hfsplus/rangelist.c:95-151 | the six cases of addition |
| `RangeList.AddIff` | hfsplus/rangelist.c:72-157 | addition is set union on a well-formed list if and only if AddWorks holds of the list and the range |
| `RangeList.TailAddWorks` | hfsplus/rangelist.c:72-157 | it holds for every addition at or behind the start of the last entry |
| `RangeList.AddCanFail` | hfsplus/rangelist.c:104-112 | two additions for which it does not |
| `RangeList.RangeListHead.CollapseForwardsAt` | hfsplus/rangelist.c:356-384 | collapsing forwards takes over the end of the neighbour, as often as entries touch |
| `RangeList.RangeListHead.CollapseBackwardsAt` | hfsplus/rangelist.c:386-414 | collapsing backwards |
| `RangeList.RangeListHead.Add` | hfsplus/rangelist.c:72-157 | the union, exactly when AddWorks; always for additions at the tail |
| `RangeList.RangeListHead.CanAdd` | hfsplus/rangelist.c:72-157 | whether an addition will work can be told from the list beforehand |
| `RangeList.RangeListHead.Run` | hfsplus/rangelist.c:72-251 | over every run of removals and additions that work, tail additions among them, the list is well formed and denotes exactly the set they describe |
| `RangeList.RangeListHead.SizeToRecord` | hfsplus/hfs_vnops.c:701-710 | the recorded size is the first invalid offset, or the size if there is none |
| `BTreeExtend.SafeIff` | hfsplus/hfs_btreeio.c:365-429 | no panic branch can be reached, whatever the allocator grants, if and only if the file ends where its space ends, or its space is already enough and ends on a node boundary |
| `BTreeExtend.PanicHappens` | hfsplus/hfs_btreeio.c:376-388 | a file with a block to spare on a full disk, for which one is |
| `BTreeExtend.BTreeFile.Halve` | hfsplus/hfs_btreeio.c:338-345 | the next amount to ask for is half as much in whole nodes, at least one, and smaller |
| `BTreeExtend.BTreeFile.Obtain` | hfsplus/hfs_btreeio.c:330-348 | the amounts asked for, and that the loop ends with the first answer that is not for nothing or with nothing left to try |
| `BTreeExtend.BTreeFile.Trim` | hfsplus/hfs_btreeio.c:359-413 | what is cut back, and when it panics |
| `BTreeExtend.BTreeFile.ClearBTNodes` | hfsplus/hfs_btreeio.c:449-510 | exactly the new nodes are zeroed |
| `BTreeExtend.BTreeFile.Extend` | hfsplus/hfs_btreeio.c:261-444 | the file ends on a node boundary, large enough or exactly as before with the disk full; old bytes stay and new ones are zero; it panics exactly if what was granted makes Panics true; otherwise it succeeds exactly if that is enough |
| `BTreeExtend.RoomFoundIff` | hfsplus/hfs_btreeio.c:330-373 | on a disk with so much room in one piece, enough is found if and only if halving the first amount hits on it |
| `BTreeExtend.RoomMissed` | hfsplus/hfs_btreeio.c:330-373 | six nodes are needed, seven are free in one piece, and the disk is reported full |
| `ExtentCopy.VolumeObjects.AddExtent` | xnu/CopyHFSMeta/misc.c:79-116 | the extent is appended, whichever chunk has room, and the counts follow |
| `ExtentCopy.Copy.UnalignedRead` | xnu/CopyHFSMeta/util.c:565-601 | a read returns a non-empty prefix of what was wanted, and exactly how much |
| `ExtentCopy.KeyIsDivMod` | xnu/CopyHFSMeta/SparseBundle.c:140-143 | an offset belongs to band o / bandSize at o % bandSize |
| `ExtentCopy.Copy.WriteBand` | xnu/CopyHFSMeta/SparseBundle.c:139-193 | one turn of the band loop writes to the band of its offset, through the cached descriptor |
| `ExtentCopy.Copy.SparseWrite` | xnu/CopyHFSMeta/SparseBundle.c:130-200 | all pieces land in their bands, or some did and a failure is reported |
| `ExtentCopy.Copy.WritePiece` | xnu/CopyHFSMeta/SparseBundle.c:214-246 | a piece is read and written, and the progress noted is the position behind it |
| `ExtentCopy.Copy.WriteExtent` | xnu/CopyHFSMeta/SparseBundle.c:205-248 | short reads are followed up until the extent is complete; it fails exactly if a device does, and the progress is what was copied |
| `ExtentCopy.Copy.CopyExtent` | xnu/CopyHFSMeta/misc.c:166-224 | skipping inside, up to or past an extent |
| `ExtentCopy.Copy.CopyChunk` | xnu/CopyHFSMeta/misc.c:163-224 | one chunk of the extent list, extent by extent |
| `ExtentCopy.Copy.CopyObjects` | xnu/CopyHFSMeta/misc.c:151-232 | a copy from its recorded progress completes the image and copies exactly what the progress left open; it fails exactly if a device does or it is stopped, and then its progress names bytes that are all there and has grown by exactly what was copied |
| `ExtentCopy.Copy.Sessions` | xnu/CopyHFSMeta/misc.c:145-232 | sessions interrupted anywhere and resumed leave the whole image, one session more than there are failures is enough, and over all of them no byte is copied twice if the progress is noted |
| `ExtentCopy.ImageUnique` | xnu/CopyHFSMeta/SparseBundle.c:139-196 | a complete copy holds the same bytes however it was reached |
| `ExtentCopy.SameBytesInTheEnd` | xnu/CopyHFSMeta/misc.c:145-232 | two copies of the same extents, however interrupted, end with the same bytes |
| `Newfs.DefaultBlockSize` | disk_bin/newfs_hfs/newfs_hfs.c:382-394 | the least power of two from 4096 up for which the block count fits 32 bits, itself within 32 bits |
| `Newfs.LargestSuffices` | disk_bin/newfs_hfs/newfs_hfs.c:390-393 | 2 GB blocks are enough for every medium below 2^63 bytes |
| `Newfs.RawSmall` | disk_bin/newfs_hfs/newfs_hfs.c:997-1014 | the size before rounding, by the size of the volume: 0.8 % below 1 GB, the table up to 32 GB |
| `Newfs.RawMedium` | disk_bin/newfs_hfs/newfs_hfs.c:961-1014 | the table from 32 GB to 1 TB |
| `Newfs.RawLarge` | disk_bin/newfs_hfs/newfs_hfs.c:961-1014 | the table from 1 TB up |
| `Newfs.ClumpSize` | disk_bin/newfs_hfs/newfs_hfs.c:988-1028 | a positive multiple of node and block size, the largest below the raw size unless there is none |
| `Newfs.BitmapSize` | disk_bin/newfs_hfs/newfs_hfs.c:685-697 | the least whole number of blocks with a bit for every block |

## Left out

- Catalog.Volume.Create: assumes that some user id is free, without which it does not end (NoFreeIdNeverStops).
- Catalog.Volume.InsertThread: likewise.
- Catalog.Volume.Rename: when moving the record back fails the source panics, and nothing is said of the catalog then.
- FileData.Fork.Write: faults while copying from the caller's memory and the clearing of the set-id bits are not modelled.
- FileData.Fork.Truncate: deferred allocation, quotas, errors of TruncateFileC and hfs_update, and the invalid ranges of a fork are not modelled together with its data.
- FileData.Fork.Read: blocks that are read short without an error are not modelled.
- NodeBuffer.NodeBlock.Fetch: the mode for a header read with another block size is only shown not to be taken.
- NodeBuffer.NodeBlock.Release: is modelled for nodes that were not changed; changed ones are written.
- Utf8Encode.EncodeStr: the flags for reversed byte order and for decomposition while encoding are left out.
- Utf8Decode.DecodeStr: reversed byte order is left out; buffers have room for a whole number of units.
- Composition.Decompose: the table of decompositions other than Hangul is a parameter, and so is its recursive expansion.
- MacRoman.Mapped: takes U+2268, for which the source looks one entry past the end of its table, as unmapped.
- BTreeExtend.BTreeFile.Extend: locking, the roving allocation pointer and the flushing of the volume header are left out; truncation is taken to succeed.
- ExtentCopy.Copy.CopyObjects: resumes from the recorded progress only; the header comparison that can discard it is left out.
- ExtentCopy.Copy.UnalignedRead: the device is taken to return at least the first byte that is wanted; the source would loop or fail without it.
- Newfs.DefaultBlockSize: sectors of more than 4096 bytes, for which the source divides by zero, are left out.
- MacRoman.UnicodeToMacRoman: takes U+2268 as unmapped, as MacRoman.Mapped does.
- RangeList.RangeListHead: the linked list is a sequence, and offsets are unbounded integers.
- Standard HFS variants of the catalog operations, whose threads are optional.
- The B-tree, extent and allocator layer, which appears through what it promises.
- cnode hash, vnode life cycle, attribute lists, quotas, journalling, mount and permission code.
- Sizes given by the user of newfs, which are only checked.
