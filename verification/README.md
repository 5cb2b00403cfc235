# A verified model of a teaching file system

This project models the core of a small Unix-like file system written in Java
for a teaching operating system (ThreadOS, CSS 430). The file system sits on a
simulated disk of 512-byte blocks:

- **Block 0, the superblock**: the block count, the inode count and the head of the free list.
- **The inode blocks**: 32-byte inode records, sixteen per block, starting at block 1.
  Each record has eleven direct block pointers and one indirect (index) block
  of 256 16-bit slots.
- **Free blocks**: a singly linked list threaded through the first four bytes
  of each free block.
- **In memory**: a flat directory and a system-wide file table. The directory
  maps inode numbers to names. The table tracks open entries and the
  UNUSED/USED/READ/WRITE flag of each inode.

The model is functional. The disk is a `map<int, Block>` in which an unwritten
block reads as zeros. Every Java call becomes a function that takes the state
it reads and returns the state it leaves. Abnormal endings are values:
- an exception is `Throws`/`Raised`;
- an endless loop is `Loops`/`Hangs`/`Spinning`;
- a `wait()` is `Blocked`/`Waits`.

Java `short`/`int` wrap-around is modelled with `Wrap16`/`Wrap32` where the
source casts block numbers or counts users. Two `short` wraps are excluded
instead of modelled: `ialloc` and `namei` count slots in a `short`, so the
model requires at most 32767 directory slots; `format` counts inodes in an
`int` but casts each to `short` for `toDisk`, so the model requires inode
counts below 32768 (see "Left out").

The quirks of the source are reproduced rather than fixed:
- `deallocAllBlocks` returns the slot index to the free list, not the block it holds.
- Its indirect walk re-reads slot 0 for ever.
- `ifree` bounds-checks against 30, the name width, not against the directory size.
- `format` chains the free list up to the constant 1000, whatever the disk size.
- `returnBlock` fails on an empty list.
- An indirect slot counts as occupied only when it is `> 0`.
- `write` never checks `getFreeBlock() == -1`.

Modules, one per source class:

| module | file | models |
|---|---|---|
| `Bytes` | bytes.dfy | 4- and 2-byte integer marshalling, Java integer wrap-around, `System.arraycopy` |
| `Disks` | disk.dfy | the block device |
| `Options` | option.dfy | null references and abnormal endings |
| `Inodes` | inode.dfy | Inode.java |
| `Directories` | directory.dfy | Directory.java |
| `SuperBlocks` | superblock.dfy | SuperBlock.java |
| `FileTables` | filetable.dfy | FileTableEntry.java, FileTable.java |
| `FileSystems` | filesystem.dfy | FileSystem.java: seek, read, write, deallocAllBlocks, close, open |
| `WriteRead` | writeread.dfy | the end-to-end property: write a buffer to an empty file, seek to 0, read it back |
| `Overwrite` | overwrite.dfy | the bytes a write leaves when every byte it covers is already mapped |

Mode strings are compared by content. The source compares them with `==` on
`String`, which holds for the interned literals its callers pass.

## Model

| member | source | states |
|---|---|---|
| Inodes.NewInode | Inode.java:31-38 | a default inode has length 0, count 0, flag 1 and every direct and indirect pointer -1, so its direct slots are gap-free |
| Inodes.EncodeDecodeInode | Inode.java:62-129 | reading back the 32 bytes toDisk writes restores length, count, flag, the 11 direct pointers and the indirect pointer exactly |
| Inodes.ReadInode | Inode.java:62-86 | the inode read for record i is well formed and is the one whose 32-byte encoding is exactly the bytes at (i%16)*32 in block 1 + i/16 |
| Inodes.DecodeEncodeInode | Inode.java:62-129 | re-encoding a decoded record gives back the same 32 bytes |
| Inodes.WriteInode | Inode.java:109-146 | after toDisk(i), record i reads back as written; no block other than 1 + i/16 changes; within that block only bytes (i%16)*32 .. +32 change; every other record reads back as before |
| Inodes.GetIndexBlockNumber | Inode.java:185-223 | length, count, flag and the indirect pointer are always kept, and only the direct slot or the index block of the offset can change; a direct slot that is set gives -1; a gap (previous slot -1) gives -2; past the direct range with no index block gives -3; a set (> 0) indirect slot gives -1; all of these leave the inode and disk unchanged; otherwise the offset maps to the new block and no other file block's mapping changes |
| Inodes.GetIndexKeepsGapFree | Inode.java:189-198 | recording a real block number keeps the direct slots filled left to right |
| Inodes.SetIndexBlock | Inode.java:244-263 | succeeds iff every direct slot is set and the indirect pointer is exactly -1; on failure nothing changes; on success the indirect pointer is the new block, only that block is written, and every offset past the direct range is unmapped |
| Inodes.EmptyIndexBlock | Inode.java:256-260 | a fresh index block holds -1 in all 256 slots |
| Inodes.FreeIndirectBlock | Inode.java:159-169 | with an index block, returns its contents and clears the pointer; without one, returns null and changes nothing |
| Inodes.FreeIndirectTwice | Inode.java:159-169 | a second freeIndirectBlock returns null |
| Inodes.NewInodeMapsNothing | Inode.java:278-294 | findTargetBlock on a default inode is -1 at every offset |
| Inodes.TargetFrame | Inode.java:278-294 | findTargetBlock depends on nothing but the direct pointers, the indirect pointer and the index block's contents, and gives the same block for two offsets in the same 512-byte file block |
| Directories.NewDirectory | Directory.java:32-42 | slot 0 holds "/" with length 1 and every other slot is free; a size below 1 throws |
| Directories.NewDirectoryRoot | Directory.java:32-42 | on a fresh directory namei finds "/" at slot 0, and the first ialloc hands out slot 1, or -1 when the directory has a single slot |
| Directories.Ialloc | Directory.java:87-97 | returns -1 with nothing changed iff no slot is free; otherwise returns the lowest free slot, stores the name cut to 30 characters there, and leaves every other slot untouched |
| Directories.Namei | Directory.java:118-126 | returns -1 iff no slot holds a name of that exact length and content; otherwise the lowest slot that does |
| Directories.IallocThenNamei | Directory.java:87-126 | a name of at most 30 characters held nowhere else is found by namei at the slot ialloc gave it |
| Directories.Ifree | Directory.java:104-111 | succeeds iff 0 <= i < 30, i is inside the directory and the slot is occupied; success zeroes just that slot's length; a failure changes nothing; an index below 30 outside the directory throws |
| Directories.IfreeIgnoresHighSlots | Directory.java:105 | an occupied slot at index 30 or above can never be freed and stays findable by namei |
| Directories.IfreeThenNamei | Directory.java:104-126 | a freed slot no longer answers namei for any non-empty name, and ialloc hands out that slot or a lower one |
| Directories.Directory2Bytes | Directory.java:65-80 | the image is 64 bytes per slot: slot i's length as an int at offset 4i, then its name zero-padded in the 60-byte field at 4n + 60i |
| Directories.Bytes2Directory | Directory.java:48-59 | returns iff the image holds 64 bytes per slot and every stored length lies in 0..30 (otherwise it throws); then every length is the int stored at 4i, each live name is the stored bytes of its field decoded one character per byte, and the characters past a slot's length are those the directory had |
| Directories.DirectoryRoundTrip | Directory.java:48-80 | reloading a directory's image restores every length and every stored name over any directory of the same size, and over the directory itself gives exactly that directory |
| SuperBlocks.GetFreeBlock | SuperBlock.java:70-80 | returns -1 with nothing changed iff the head lies outside (0, totalBlocks); otherwise returns the head and makes its link the new head |
| SuperBlocks.GetFreeBlockPops | SuperBlock.java:70-78 | on a list of in-range blocks, getFreeBlock hands out the first block and the rest is still the list |
| SuperBlocks.ReturnBlock | SuperBlock.java:91-130 | succeeds iff 0 < n < totalBlocks and the list is not empty; on failure nothing is written; on success block n is zeroed with link -1, the old tail links to n, no other block changes, and the list becomes the old one with n appended |
| SuperBlocks.ReturnBlockAppends | SuperBlock.java:101-121 | returning a block that is not on a non-empty list appends it after the old tail |
| SuperBlocks.ChainDistinct | SuperBlock.java:109-125 | a free list whose walk reaches -1 holds no block twice |
| SuperBlocks.Sync | SuperBlock.java:53-62 | block 0 then holds exactly the image of the three fields as ints at offsets 0, 4 and 8, it loads back as the same superblock, and no other block changes |
| SuperBlocks.ReadSuperBlock | SuperBlock.java:28-35 | the three fields read are the first 12 bytes of block 0 as three big-endian ints, which is what sync writes there |
| SuperBlocks.Format | SuperBlock.java:138-188 | a negative count becomes 64; the inode count is stored; the free list starts at count/16 + 2; the new fields read back from block 0 |
| SuperBlocks.FormatLeavesInodesUnused | SuperBlock.java:146-152 | after format (a negative count meaning 64) every inode below the count reads back as an empty record with flag 0, except records in block 999, which the end of the free list overwrites |
| SuperBlocks.FormatChainsFreeBlocks | SuperBlock.java:154-178 | after format with the head below block 1000, walking the free list from its head visits head, head+1, ..., 999 and ends |
| SuperBlocks.FormatKeepsInodeBlocks | SuperBlock.java:146-178 | chaining the free list and writing block 0 leave every block between the superblock and the head, block 999 aside, as the inode loop wrote it |
| SuperBlocks.LoadSuperBlock | SuperBlock.java:28-45 | the stored fields are kept iff the block count matches, totalInodes > 0 and freeList >= 2; otherwise the disk is formatted with 64 inodes; either way block 0 agrees with the result |
| SuperBlocks.SyncThenLoad | SuperBlock.java:28-62 | a synced superblock with sane fields is loaded back unchanged |
| FileTables.NewEntry | FileTableEntry.java:12-20 | a new entry keeps the inode, number and mode given, has one user, and its seek pointer is the file length for "a" and 0 otherwise |
| FileTables.EmptyTableIsEmpty | FileTable.java:137-139 | fempty holds of the table the file system starts with |
| FileTables.FemptyAcrossOpen | FileTable.java:37-139 | on an empty table a granted falloc makes fempty false, and ffree of the entry it returned makes it true again |
| FileTables.RootAlwaysResolves | FileTable.java:41-101 | falloc of "/" is answered without namei: it never returns null and never throws, and when it grants, the entry is for inode 0 and the directory is unchanged |
| FileTables.Falloc | FileTable.java:37-101 | for an existing file: proceeds iff the flag admits the mode (UNUSED/USED/READ for "r", UNUSED/USED otherwise); waits on a writer or on any non-read request; spins for "r" on an unknown flag. For a missing file: "r" returns null, any other mode allocates a directory slot or throws when none is free. On success the record on disk carries the new flag and one more user, every other inode record and every block other than that record's reads as before, and exactly one entry is appended |
| FileTables.Grant | FileTable.java:95-100 | a granted open persists the record with one more user and appends one fresh entry |
| FileTables.FallocKeepsValid | FileTable.java:95-100 | every entry in the table was handed out before the next identity, so a new entry never shares an old one's identity |
| FileTables.WriterExcludesAll | FileTable.java:42-88 | once a file is open for writing, every further open of the same name waits, in any mode; this includes a file the first open created, when its name fits in 30 characters |
| FileTables.LongNameOpensTwice | FileTable.java:42-88 | a file created under a name longer than 30 characters is stored cut short, so namei never finds it again: a read open of the name gives null and a second write open creates another file under a different inode number |
| FileTables.LongNameExample | FileTable.java:42-88 | on a fresh three-slot directory, opening a 31-character name for "w" twice is granted twice, under inode numbers 1 and 2 |
| FileTables.GrantFoundAgain | FileTable.java:42-88 | for a name of at most 30 characters, the inode falloc grants, found or created, is the one the name resolves to afterwards, in a well-formed directory |
| FileTables.FallocCapped | FileTable.java:42-88 | the corrected falloc of "Findings": it is falloc itself for names of at most 30 characters, and after any grant the name as the directory keeps it resolves to the granted inode, which falloc as written does not ensure for longer names (FileTables.LongNameOpensTwice) |
| FileTables.WriterExcludesAllCapped | FileTable.java:42-88 | with the name cut as the directory stores it, once a name is open for writing every further open of it waits, whatever its length |
| FileTables.ReadersShare | FileTable.java:49-80 | while a file is open for reading, another reader gets in and a writer waits |
| FileTables.Ffree | FileTable.java:108-131 | returns false with nothing changed for an entry the table does not hold; otherwise removes exactly that entry, releases READ only for the last user, always releases WRITE, counts one user less and persists that record, with every other inode record and every block other than that record's unchanged |
| FileTables.FallocThenFfree | FileTable.java:95-128 | freeing the entry falloc just made restores the table and the user count; the flag goes back to USED after a write, and after a read exactly when nobody else used the file |
| FileSystems.Seek | FileSystem.java:297-340 | SET, CUR and END aim at offset, pointer + offset and length + offset; the target is clamped into [0, length] (to length itself when length is negative), stored and returned; an unknown whence returns -1 and moves nothing |
| FileSystems.SeekIdempotent | FileSystem.java:297-340 | seeking to the position a seek returned, or by 0 from it, keeps it |
| FileSystems.AppendStartsAtEnd | FileSystem.java:315-320 | an entry opened in "a" already sits where seek(0, END) puts it |
| FileSystems.ReadLoop | FileSystem.java:135-161 | fills the buffer from the given index with the file's bytes from the seek position, leaves every other index alone, copies at most what is left of the file, and copies min(room, bytes left) when every block on the way is mapped |
| FileSystems.Read | FileSystem.java:124-164 | modes "w" and "a" return -1 with nothing changed; otherwise returns n with 0 <= n <= length - seekPtr, buffer indices below n hold the file's bytes from the seek pointer, the rest of the buffer is untouched, the pointer advances by n, and n = min(buffer length, length - seekPtr) when those blocks are mapped |
| FileSystems.MapBlock | FileSystem.java:183-204 | a mapped offset keeps its block and changes nothing; a successful allocation leaves the offset mapped to the returned block |
| FileSystems.MapBlockAllocates | FileSystem.java:185-203 | for an unmapped offset the block used is getFreeBlock's answer cut to short; in the direct range the write proceeds iff the slot is the first or follows a set one; past it with an index block it proceeds; without one it takes a second block for the index and proceeds iff every direct slot is set, the indirect pointer is -1 and that second block, cut to short, is not negative |
| FileSystems.CopyIntoBlock | FileSystem.java:206-229 | the bytes copied land at the offset, and every other byte of the block and every other block is kept |
| FileSystems.WriteStep | FileSystem.java:183-229 | an iteration either fails in the mapping, with the pointer and buffer position unmoved, or moves both by the same chunk: the rest of the buffer when it fits in the block, otherwise up to the end of the block |
| FileSystems.WriteLoop | FileSystem.java:182-231 | the loop advances the seek pointer exactly as far as the buffer position, and a loop that ends without error has used the whole buffer |
| FileSystems.Write | FileSystem.java:172-239 | a null entry or mode "r" returns -1 with nothing changed; otherwise the result is -1 or the buffer length; on success the pointer advances by the buffer length, the length becomes max(old length, new pointer) and the record on disk is the entry's inode; a failure keeps the old length |
| FileSystems.Commit | FileSystem.java:232-237 | after a completed loop the length is raised to the pointer if it passed the end and the inode is persisted; after a failed one nothing is persisted |
| FileSystems.ReturnDirect | FileSystem.java:255-260 | after the direct loop the free list is the old one with each set slot's index returned in turn |
| FileSystems.DeallocAllBlocks | FileSystem.java:246-273 | a count other than 1 returns false with nothing changed; otherwise the call loops iff there is an index block whose slot 0 is not -1, and when it returns it gives true, every direct slot -1, no index block, and that inode persisted |
| FileSystems.Persist | FileSystem.java:263-272 | the end of deallocAllBlocks: the entry's inode has no blocks and is what the disk record reads back as |
| FileSystems.DeallocReturnsSlotIndex | FileSystem.java:255-260 | for a file with direct blocks in slots 0 and 1, the free list gains block 1 and neither of the file's blocks |
| FileSystems.DeallocEndsIffSlotZeroEmpty | FileSystem.java:263-270 | with no direct blocks and an index block, deallocAllBlocks returns iff slot 0 of the index block is -1 |
| FileSystems.Close | FileSystem.java:95-104 | the entry loses one user; while users remain close returns true and changes nothing else; the last user frees the entry through ffree, whose answer close returns |
| FileSystems.Open | FileSystem.java:79-86 | null, wait, spin and throw are exactly falloc's; an open not in "w" returns falloc's entry; in "w" the open succeeds iff the inode has one user and truncation ends, and the entry then has no blocks and keeps its length |
| FileSystems.Truncate | FileSystem.java:81-84 | the "w" step opens iff deallocAllBlocks returns true, hangs iff it loops, and otherwise gives null |
| FileSystems.OpenThenClose | FileSystem.java:79-104 | opening (not in "w") and closing gives back the file table and the inode's user count |
| FileSystems.CloseLastUser | FileSystem.java:97-99 | closing an entry with one user frees it through ffree |
| WriteRead.MapDirect | FileSystem.java:183-204 | the write maps file block T < 11 to the next free-list block, and the rest of the list survives |
| WriteRead.MapFirstIndirect | FileSystem.java:190-199 | the write maps file block 11 after taking two blocks, the first for the data and the second for the index block |
| WriteRead.MapIndirect | FileSystem.java:183-204 | the write maps file block T > 11 to the next free-list block through the index block |
| WriteRead.Loop | FileSystem.java:182-231 | from a file with no blocks, the write loop uses the whole buffer, maps file block t to the t-th block it takes from the free list, and leaves the buffer's bytes in those blocks |
| WriteRead.WriteFills | FileSystem.java:172-239 | writing from offset 0 to a file that has no blocks yet, with enough free blocks, returns the buffer length and leaves the buffer as the file's first bytes, all of them mapped |
| WriteRead.ReadBack | FileSystem.java:124-164 | reading from offset 0 a file whose first bytes are mapped and equal the buffer returns the buffer |
| WriteRead.WriteThenRead | FileSystem.java:124-340 | write(B) from offset 0 on a file with no blocks, in a read-write mode, then seek(0, SET), then read of len(B) bytes returns exactly B |
| Overwrite.StepOverwrites | FileSystem.java:183-229 | an iteration over a mapped block allocates nothing, keeps the inode and copies its chunk, so the bytes written so far read back as the buffer and nothing outside them changes |
| Overwrite.LoopOverwrites | FileSystem.java:182-231 | the write loop over mapped bytes, each file block in a block of its own, takes the whole buffer, allocates nothing and leaves exactly the buffer over the bytes it covers |
| Overwrite.LoopAllocatesNothing | FileSystem.java:182-231 | over mapped bytes the loop ends without error, with the superblock and the inode as they were and the pointer at the end of the buffer |
| Overwrite.WriteOverwrites | FileSystem.java:172-239 | write over bytes that are already mapped returns the buffer length with the superblock (and so the free list head) unchanged, the block pointers kept, the length raised to the new pointer if it passed the end, and the pointer advanced by the buffer length |
| Overwrite.WriteReadsBack | FileSystem.java:172-239 | after such a write, with the index block outside the record block, every byte written reads back through the new inode as the buffer's byte at that offset |
| Overwrite.WriteKeepsTheRest | FileSystem.java:172-239 | after such a write, every byte outside the range written that is not stored in the inode's record block reads as before, and no block changes but the blocks written and the record block |

## Left out

- Threads: `synchronized`, `wait()`, `notify()` and `notifyAll()` are not modelled. A `falloc` that would wait returns `Blocked`. One that would retry for ever without waiting returns `Spinning`.
- Device I/O: `SysLib.rawread`/`rawwrite` act on an in-memory map from block number to 512 bytes. `Disk.blockSize` is the constant 512. A read or write of a block number outside the disk fails in the device and leaves the buffer as it was. The map instead accepts any block number; an unwritten block reads as zeros.
- The byte helpers `int2bytes`/`bytes2int` and `short2bytes`/`bytes2short` are not part of this model. They are modelled as big-endian two's complement. Only their widths and round trips are relied on.
- Console output (`SysLib.cout`, `SysLib.cerr`, `printDirectory`) is left out. It carries no state.
- Java charsets: names are restricted to characters below 128 wherever a directory image is written. For those, every common platform charset encodes a character as its own code.
- Directories.Bytes2Directory: decodes each byte as the character with that code (ISO 8859-1). Java's `new String(byte[], ...)` uses the platform charset instead, which may decode bytes of 128 and above differently or not one to one. The round trip is claimed only for names below 128.
- Directories.NewDirectory: requires at most 32767 slots. `ialloc` and `namei` count slots with `short i`; on a directory of 32768 slots or more the counter wraps from 32767 to -32768, which is still below the size, and `fsizes[-32768]` throws. That happens whenever the loop runs to the end: a full directory for `ialloc`, a missing name for `namei`. Such directories are not modelled.
- Directories.Ialloc: promises -1 on a full directory only up to 32767 slots, the bound Directory.WellFormed sets. On a full directory of 32768 slots or more the source throws instead; that case is not modelled.
- Directories.Namei: promises -1 for a missing name only up to 32767 slots. On 32768 slots or more the source throws instead; that case is not modelled.
- The FileSystem constructor, its `sync` and `format` wrappers, `fsize` and `delete` are not modelled. They are orchestration of modelled pieces, or a field read.
- SuperBlocks.Format: requires an inode count below 32768. The loop counter is an `int`, but each `toDisk((short) i)` would wrap to a negative inode number from 32768 on.
- SuperBlocks.FormatChainsFreeBlocks: requires the head below block 1000, that is fewer than 15968 inodes. With more, the head lies past the chained range and the walk reads unwritten blocks.
- SuperBlocks.FormatLeavesInodesUnused: excludes the records 15968 .. 15983, which live in block 999. format writes the last free-list link there after the inodes, so for counts above 15968 those records read back as that link block.
- SuperBlocks.FormatKeepsInodeBlocks: excludes block 999 for the same reason.
- FileSystems.Read: requires a non-negative seek pointer and a file length within the 267 addressable blocks. Past that, `findTargetBlock` indexes outside the direct array or the index block and throws. That throw is not modelled.
- FileSystems.Write: requires the write to end within the 267 addressable blocks. Past that, the source indexes outside the index block and throws. It also requires a non-negative seek pointer, which only a negative stored length can break (through seek or an "a" entry): the source then throws for a non-empty buffer (in `findTargetBlock` from -512 down, otherwise in `System.arraycopy`), and for an empty one persists the inode and returns 0; neither case is modelled. Its own contract does not state the bytes written. Over bytes already mapped, they are stated by Overwrite.WriteReadsBack and Overwrite.WriteKeepsTheRest, and from an empty file by WriteRead.WriteFills. A write that allocates part-way through an existing file, such as an append in mode "a" past the last mapped block, is not stated.
- FileSystems.WriteLoop: its own contract states the pointer and the buffer position only. The bytes it leaves are stated by Overwrite.LoopOverwrites over mapped bytes and by WriteRead.Loop from an empty file.
- Overwrite.WriteOverwrites: proved only when every byte the write covers is already mapped, each file block to a block of its own that is neither the index block nor the inode's record block. A write that allocates is covered from an empty file by WriteRead.WriteFills; one that allocates part-way through an existing file is not stated.
- Overwrite.WriteReadsBack: proved under the same conditions as Overwrite.WriteOverwrites, and only when the index block is not the record block.
- Overwrite.WriteKeepsTheRest: proved under the same conditions as Overwrite.WriteReadsBack. Bytes stored in the record block itself are not promised to survive, since persisting the inode rewrites 32 bytes of that block.
- FileSystems.DeallocAllBlocks: requires a witness that the free list ends (a `path` it walks). `returnBlock` on a cyclic list never returns, and that case is not modelled.
- FileSystems.Open: like DeallocAllBlocks, for mode "w" it requires the free list after falloc to end.
- FileSystems.Close: `close` on an entry whose count is already 0 or less is modelled with Java int wrap-around. What other threads see in between is not modelled.
- WriteRead.WriteThenRead: proved only from offset 0 on a file that has no blocks yet, in a mode that both reads and writes. The free list must hold the blocks the buffer needs, plus one index block past 11 blocks. Those blocks must be below 32768 and must not include the block of the file's inode record. `write` never checks for an empty free list, so without this the round trip does not hold.
- WriteRead.MapFirstIndirect: states only the branch in which both blocks come off the list and the index block is installed. The other outcomes of a first indirect mapping are stated in FileSystems.MapBlockAllocates: an empty list, whose -1 is cut to short, and a refused `setIndexBlock`.

## Findings

| source | as written | input that shows it | evidently intended | confidence | as-written member | corrected member |
|---|---|---|---|---|---|---|
| FileTable.java:42-88 | falloc looks a name up with namei, which compares the whole name, but creates a missing file with ialloc, which stores at most 30 characters (Directory.java:90), so a longer name is never found again | a 31-character name opened twice in mode "w" on a fresh directory: both opens are granted, under inode numbers 1 and 2, and the second writer does not wait | lookup and creation agree on the name, so a second open of a file held for writing waits | not executed | FileTables.LongNameExample | FileTables.WriterExcludesAllCapped |
