# FileSystemManager: a verified model of the storage engine

This project models the storage engine of the file server: the class
`FileSystemManager`. The engine keeps a small file system inside one disk
file of 1280 bytes, which is ten blocks of 128 bytes.

- **Block 0** holds the directory: five records of 15 bytes each. A record is
  an 11-byte zero-padded name, then the file size and the first block, each a
  big-endian 16-bit signed value.
- **Blocks 1..9** hold file contents. Each file holds one contiguous run of
  blocks (its extent), chosen first-fit.
- **The public operations** are `createFile`, `deleteFile`, `writeFile`,
  `readFile` and `listFiles`.
- **After every change** the whole directory is written back to block 0.

The model has three layers.

- **`FileSystem.FileSystemManager`** (`file_system_manager.dfy`) is a class
  with the source's own state:
  - the directory array `entries` and the disk image `disk`, updated in place;
  - one method per operation and per private helper, each written with the
    same loops and branches as the Java code.
- **Module `Engine`** (`engine.dfy`) states each public operation as a pure
  function over `State(entries, disk)`. Each function returns the new state
  and the outcome, and lemmas state the outcomes case by case. Every method
  of the class is proved to move `(entries, disk)` exactly as its function
  does and to return the same outcome.
- **Module `Properties`** (`properties.dfy`) proves what the engine promises
  across calls:
  - **the directory invariant:** block 0 is never allocated, extents lie in
    blocks 1..9 and are pairwise disjoint, and names are unique;
  - **the invariant holds after any sequence of calls** from a freshly
    formatted disk;
  - **reads:** a file reads back exactly what was last written to it, and a
    call on one file leaves what the others read unchanged;
  - **restarts:** the directory survives one.

The supporting modules are:

- `layout.dfy`: the constants, byte and 16-bit types, and the entry and error
  types;
- `codec.dfy`: the record and directory encoding, String.trim, and the round
  trips;
- `allocator.dfy`: block counts, the occupancy bitmap and first-fit placement;
- `directory.dfy`: lookup by name, the first free slot, and the list of names.

**Errors.** Java exceptions become values:

- `Outcome` (`Pass` or `Fail(error)`) for the operations that return nothing;
- `Result<seq<Byte>>` for `readFile`.

Each `Error` constructor stands for one kind of failure:

- `NotFound` stands for the three "does not exist" throws, in `deleteFile`,
  `writeFile` and `readFile`.
- `IOFailure` stands for no `throw` in the source. It is the EOFException
  that `readFully` raises on a read past the end of the disk.
- Every other constructor stands for exactly one `throw`.

**Modelling choices.**

- File names and contents are byte sequences.
- The disk is an in-memory array of `DiskSize` bytes. Opening a disk file is
  one of two constructors, because the I/O itself is left out (see below):
  - `Format`: the file was empty, so it is sized, block 0 is cleared and the
    empty directory is written;
  - `Mount(image)`: the file exists, so the directory is loaded from the
    image.

**Reads past the end of the disk.** `readFile` checks only `firstBlock < 1`
(FileServer/src/main/java/ca/concordia/filesystem/FileSystemManager.java:141-144).
A first block whose extent runs past the end of the disk fails inside
`readFully` (EOFException). The model reports that failure as `IOFailure`.

## Model

All source paths are under `FileServer/src/main/java/ca/concordia/filesystem/`,
written out in full in each row.

| member | source | states |
|---|---|---|
| FileSystem.FileSystemManager.Format | FileServer/src/main/java/ca/concordia/filesystem/FileSystemManager.java:18-25 | Opening an empty disk file gives fresh arrays whose contents are the formatted state: a zero disk of DiskSize bytes, no files, and the empty directory written to block 0 |
| FileSystem.FileSystemManager.Mount | FileServer/src/main/java/ca/concordia/filesystem/FileSystemManager.java:18-27 | Opening an existing image keeps the image as the disk and loads the directory decoded from its block 0 |
| FileSystem.FileSystemManager.CreateFile | FileServer/src/main/java/ca/concordia/filesystem/FileSystemManager.java:30-55 | The new directory, the new disk and the outcome are exactly those of Engine.CreateSpec on the old state |
| FileSystem.FileSystemManager.DeleteFile | FileServer/src/main/java/ca/concordia/filesystem/FileSystemManager.java:57-79 | The new directory, the new disk and the outcome are exactly those of Engine.DeleteSpec on the old state |
| FileSystem.FileSystemManager.ZeroBlocks | FileServer/src/main/java/ca/concordia/filesystem/FileSystemManager.java:67-75 | The zeroing loop sets to 0 exactly the bytes of the blocks firstBlock .. firstBlock + blocks - 1 that lie on the disk, and keeps every other byte |
| FileSystem.FileSystemManager.WriteFile | FileServer/src/main/java/ca/concordia/filesystem/FileSystemManager.java:81-127 | The new directory, the new disk and the outcome are exactly those of Engine.WriteSpec on the old state |
| FileSystem.FileSystemManager.WriteBlocks | FileServer/src/main/java/ca/concordia/filesystem/FileSystemManager.java:104-120 | The block loop writes the contents, zero-padded to a whole number of blocks, at block startBlock, and changes no other byte |
| FileSystem.FileSystemManager.WriteBlock | FileServer/src/main/java/ca/concordia/filesystem/FileSystemManager.java:106-117 | One iteration writes the chunk, then zeros up to the end of the block, and changes no other byte |
| FileSystem.FileSystemManager.ReadFile | FileServer/src/main/java/ca/concordia/filesystem/FileSystemManager.java:128-162 | The block-by-block read returns exactly Engine.ReadSpec of the current state |
| FileSystem.FileSystemManager.ListFiles | FileServer/src/main/java/ca/concordia/filesystem/FileSystemManager.java:164-172 | Returns Directory.Names of the directory: the names of the live entries in slot order |
| FileSystem.FileSystemManager.WriteAt | FileServer/src/main/java/ca/concordia/filesystem/FileSystemManager.java:176-178 | seek then write: the data lands at the offset, and every other byte of the disk is kept |
| FileSystem.FileSystemManager.InitEmptyFileSystem | FileServer/src/main/java/ca/concordia/filesystem/FileSystemManager.java:175-179 | Block 0 is overwritten with zeros; the rest of the disk is kept |
| FileSystem.FileSystemManager.FindEntryIndex | FileServer/src/main/java/ca/concordia/filesystem/FileSystemManager.java:180-187 | The scan returns Directory.FindSlot: the lowest slot holding the name, or -1 when no live entry has it |
| Allocator.BlocksNeeded | FileServer/src/main/java/ca/concordia/filesystem/FileSystemManager.java:188-191 | 0 for a size that is not positive; otherwise the least n with size <= n * BlockSize, the ceiling |
| Allocator.BlocksNeededIntAgrees | FileServer/src/main/java/ca/concordia/filesystem/FileSystemManager.java:188-191 | For sizes up to 2^31 - 128, the 32-bit computation as written equals the ceiling |
| Allocator.BlocksNeededIntWraps | FileServer/src/main/java/ca/concordia/filesystem/FileSystemManager.java:90-95 | For sizes from 2^31 - 127 up to 2^31 - 1, the 32-bit computation gives a negative count. That count passes the `neededBlocks > MAX_BLOCKS - 1` check, although the contents need more than nine blocks |
| Allocator.WriteOverflowExample | FileServer/src/main/java/ca/concordia/filesystem/FileSystemManager.java:90-124 | For 2147483600 bytes the code computes -16777215 blocks, passes the size check, and stores the size as the short -48 |
| FileSystem.FileSystemManager.ComputeUsedBlocks | FileServer/src/main/java/ca/concordia/filesystem/FileSystemManager.java:193-213 | The bitmap is Allocator.UsedMap: block b is marked exactly when it is block 0 or in the extent of a live entry other than the ignored one |
| FileSystem.FileSystemManager.FindContiguousFreeRun | FileServer/src/main/java/ca/concordia/filesystem/FileSystemManager.java:215-231 | The skip-ahead scan returns Allocator.FirstFit, the lowest start of a free run of count data blocks, or -1 |
| Allocator.FirstFit | FileServer/src/main/java/ca/concordia/filesystem/FileSystemManager.java:215-231 | -1 when count is 0. Otherwise a start that begins a free run of count data blocks, and no lower start does; -1 only when no start does |
| FileSystem.FileSystemManager.WriteMetadata | FileServer/src/main/java/ca/concordia/filesystem/FileSystemManager.java:233-253 | Writing the records slot by slot leaves Engine.Persist of the old state: the directory encoding at offset 0, and nothing else changed |
| FileSystem.FileSystemManager.WriteSlot | FileServer/src/main/java/ca/concordia/filesystem/FileSystemManager.java:236-250 | One slot's record (the zero record for an empty slot) is written at offset 15 * i |
| FileSystem.FileSystemManager.WriteRecord | FileServer/src/main/java/ca/concordia/filesystem/FileSystemManager.java:244-249 | The name field and the two big-endian shorts are written back to back at the record's offset |
| FileSystem.FileSystemManager.LoadMetadata | FileServer/src/main/java/ca/concordia/filesystem/FileSystemManager.java:255-270 | The directory becomes the one Engine.MountState decodes from the disk |
| FileSystem.FileSystemManager.LoadSlot | FileServer/src/main/java/ca/concordia/filesystem/FileSystemManager.java:258-268 | Slot i becomes the decoding of record i, and the other slots are kept |
| Codec.EncodeShort | FileServer/src/main/java/ca/concordia/filesystem/FileSystemManager.java:248-249 | writeShort yields two bytes, and readShort of them gives back the value |
| Codec.ShortBytesRoundTrip | FileServer/src/main/java/ca/concordia/filesystem/FileSystemManager.java:260-261 | Every pair of bytes read by readShort and written back by writeShort is the same pair |
| Codec.EncodeName | FileServer/src/main/java/ca/concordia/filesystem/FileSystemManager.java:243-247 | The name field is 11 bytes: the name then zeros when it fits, its first 11 bytes otherwise |
| Codec.TrimLeftSuffix | FileServer/src/main/java/ca/concordia/filesystem/FileSystemManager.java:263 | The leading half of trim keeps a suffix, drops only bytes <= 0x20, and stops at a byte > 0x20 |
| Codec.TrimRightPrefix | FileServer/src/main/java/ca/concordia/filesystem/FileSystemManager.java:263 | The trailing half of trim keeps a prefix, drops only bytes <= 0x20, and stops at a byte > 0x20 |
| Codec.EncodeRecord | FileServer/src/main/java/ca/concordia/filesystem/FileSystemManager.java:236-250 | A record is 15 bytes; an empty slot is 11 zero bytes, then 0 and -1 as shorts |
| Codec.EncodeDirectoryRecord | FileServer/src/main/java/ca/concordia/filesystem/FileSystemManager.java:235-251 | Bytes 15k .. 15k + 14 of the directory encoding are the record of slot k |
| Codec.DecodeSlotsAt | FileServer/src/main/java/ca/concordia/filesystem/FileSystemManager.java:257-269 | Slot k of the loaded directory is the decoding of record k |
| Codec.DecodeSlotsPrefix | FileServer/src/main/java/ca/concordia/filesystem/FileSystemManager.java:255-270 | Loading reads only the first 15 * n bytes: the bytes after the records do not change the directory |
| Codec.DecodeRecordAt | FileServer/src/main/java/ca/concordia/filesystem/FileSystemManager.java:258-268 | Decoding record k field by field: a name that trims to nothing is a free slot whatever the other bytes are; otherwise the entry has the trimmed name and the two stored shorts |
| Codec.RecordRoundTrip | FileServer/src/main/java/ca/concordia/filesystem/FileSystemManager.java:236-268 | Loading a written record gives back the slot, for an empty slot and for any entry with a storable name |
| Codec.DirectoryRoundTrip | FileServer/src/main/java/ca/concordia/filesystem/FileSystemManager.java:233-270 | loadMetadata after writeMetadata gives back all five slots when every name is storable |
| Codec.LeadingBlankIsLost | FileServer/src/main/java/ca/concordia/filesystem/FileSystemManager.java:263 | The storability condition is needed: a name with a leading blank loses it on reload |
| Codec.TrimPadded | FileServer/src/main/java/ca/concordia/filesystem/FileSystemManager.java:244-247 | A storable name padded with zeros trims back to itself |
| Codec.TrimLeftBlank | FileServer/src/main/java/ca/concordia/filesystem/FileSystemManager.java:263-265 | A field of bytes all <= 0x20, such as the empty record's all-zero name, trims to nothing |
| Directory.FindSlot | FileServer/src/main/java/ca/concordia/filesystem/FileSystemManager.java:180-187 | -1 exactly when no live entry has the name; otherwise a slot holding it, with no lower slot holding it |
| Directory.FreeSlot | FileServer/src/main/java/ca/concordia/filesystem/FileSystemManager.java:42-48 | -1 exactly when every slot is in use; otherwise an empty slot, with no lower empty slot |
| Directory.Names | FileServer/src/main/java/ca/concordia/filesystem/FileSystemManager.java:164-172 | A name is listed exactly when some live entry has it |
| Directory.FindSlotSameNames | FileServer/src/main/java/ca/concordia/filesystem/FileSystemManager.java:180-187 | Two directories that agree on which slots hold a name find it in the same slot |
| Allocator.DisjointMeansNoSharedBlock | FileServer/src/main/java/ca/concordia/filesystem/FileSystemManager.java:193-231 | Two extents are disjoint exactly when no block lies in both |
| Allocator.FreeRunAvoidsOthers | FileServer/src/main/java/ca/concordia/filesystem/FileSystemManager.java:97-98 | A free run in the bitmap that ignores slot i lies in blocks 1..9 and misses the extent of every other live entry |
| Allocator.FirstFitAvoids | FileServer/src/main/java/ca/concordia/filesystem/FileSystemManager.java:97-98 | An entry placed at the first fit for its size is disjoint from the entry of every other slot |
| Allocator.UsedSnoc | FileServer/src/main/java/ca/concordia/filesystem/FileSystemManager.java:197-211 | One more slot scanned marks exactly the blocks of its extent, unless it is the ignored slot |
| Engine.OverwriteBytes | FileServer/src/main/java/ca/concordia/filesystem/FileSystemManager.java:72-73 | seek and write put the data at the offset and keep every other byte |
| Engine.OverwriteAdjacent | FileServer/src/main/java/ca/concordia/filesystem/FileSystemManager.java:112-116 | A write, then a write right after it, is one write of the two joined |
| Engine.PersistBytes | FileServer/src/main/java/ca/concordia/filesystem/FileSystemManager.java:233-253 | After writeMetadata, block 0 holds the directory encoding and every data byte is unchanged |
| Engine.PaddedChunk | FileServer/src/main/java/ca/concordia/filesystem/FileSystemManager.java:109-117 | Block i of the padded contents is the next at most 128 bytes of the contents, then zeros |
| Engine.PlacedStep | FileServer/src/main/java/ca/concordia/filesystem/FileSystemManager.java:105-120 | One more iteration of the block loop extends the written part of the padded contents by one block |
| Engine.FormatEmpty | FileServer/src/main/java/ca/concordia/filesystem/FileSystemManager.java:21-24 | A fresh disk has no files, holds the empty directory in block 0, and is zero everywhere else |
| Engine.FormatThenMount | FileServer/src/main/java/ca/concordia/filesystem/FileSystemManager.java:18-28 | Reopening a freshly formatted disk gives back the formatted state |
| Engine.PersistedReloads | FileServer/src/main/java/ca/concordia/filesystem/FileSystemManager.java:233-270 | A state whose block 0 holds its directory, with storable names, reopens to itself |
| Engine.CreateOutcomes | FileServer/src/main/java/ca/concordia/filesystem/FileSystemManager.java:30-55 | The outcome is Pass, EmptyName, NameTooLong or DirectoryFull. EmptyName, NameTooLong and DirectoryFull each exactly when their condition holds, with nothing changed; an existing name is a no-op success; otherwise the lowest free slot gets (name, 0, -1), block 0 is persisted and no data byte changes |
| Engine.DeleteOutcomes | FileServer/src/main/java/ca/concordia/filesystem/FileSystemManager.java:57-79 | NotFound exactly when no live entry has the name, with nothing changed; otherwise the slot is freed, block 0 persisted, the blocks of the extent zeroed, and every other data byte kept |
| Engine.WriteFailures | FileServer/src/main/java/ca/concordia/filesystem/FileSystemManager.java:81-102 | NotFound, FileTooLarge (more than 9 blocks) and NoContiguousSpace (no free run long enough) each exactly when their condition holds, and each leaves the state unchanged |
| Engine.WriteSuccess | FileServer/src/main/java/ca/concordia/filesystem/FileSystemManager.java:97-126 | On success, only the file's slot changes: it gets size = the length of the contents, and the first-fit start, or -1 for empty contents. Block 0 is persisted |
| Engine.WriteDiskEffect | FileServer/src/main/java/ca/concordia/filesystem/FileSystemManager.java:104-120 | On success the new extent holds the contents zero-padded to a block boundary; every data byte outside it is unchanged |
| Engine.ReadOutcomes | FileServer/src/main/java/ca/concordia/filesystem/FileSystemManager.java:128-162 | The result is Ok, NotFound, CorruptMetadata or IOFailure. NotFound, CorruptMetadata (size > 0, first block < 1) and IOFailure (extent past the end of the disk) each exactly when their condition holds. Otherwise the result has max(size, 0) bytes, taken from the disk from the first block on |
| Engine.ReadUnchanged | FileServer/src/main/java/ca/concordia/filesystem/FileSystemManager.java:128-162 | readFile depends only on the entry found and the bytes of its extent |
| Properties.ConsistentBlocks | FileServer/src/main/java/ca/concordia/filesystem/FileSystemManager.java:93-98 | Under the invariant no entry occupies block 0, and every occupied block is a data block |
| Properties.FormatConsistent | FileServer/src/main/java/ca/concordia/filesystem/FileSystemManager.java:21-24 | The formatted directory satisfies the invariant |
| Properties.CreatePreservesConsistency | FileServer/src/main/java/ca/concordia/filesystem/FileSystemManager.java:30-55 | createFile keeps the names unique and the extents placed and disjoint |
| Properties.DeletePreservesConsistency | FileServer/src/main/java/ca/concordia/filesystem/FileSystemManager.java:57-79 | deleteFile keeps the invariant |
| Properties.WritePreservesConsistency | FileServer/src/main/java/ca/concordia/filesystem/FileSystemManager.java:81-127 | writeFile keeps the invariant: the chosen extent misses block 0 and every other live extent |
| Properties.WriteThenRead | FileServer/src/main/java/ca/concordia/filesystem/FileSystemManager.java:81-162 | After a successful writeFile, readFile of the same name returns exactly the contents written |
| Properties.WriteKeepsOtherFiles | FileServer/src/main/java/ca/concordia/filesystem/FileSystemManager.java:81-162 | writeFile of one name leaves what readFile returns for any other name unchanged |
| Properties.ReadStored | FileServer/src/main/java/ca/concordia/filesystem/FileSystemManager.java:128-162 | An entry whose size is the length of the contents, and whose extent holds them padded, reads back as the contents |
| Properties.ReadKept | FileServer/src/main/java/ca/concordia/filesystem/FileSystemManager.java:128-162 | Changes confined to an extent disjoint from another file's extent do not change what that file reads |
| Properties.CreateIdempotent | FileServer/src/main/java/ca/concordia/filesystem/FileSystemManager.java:37-40 | Creating a name a second time succeeds and changes nothing |
| Properties.CreateThenRead | FileServer/src/main/java/ca/concordia/filesystem/FileSystemManager.java:53-55 | A newly created file reads as empty and is listed |
| Properties.CreateKeepsOtherFiles | FileServer/src/main/java/ca/concordia/filesystem/FileSystemManager.java:30-55 | createFile leaves what every other name reads unchanged |
| Properties.DeleteThenRead | FileServer/src/main/java/ca/concordia/filesystem/FileSystemManager.java:57-79 | Under the invariant a deleted name then reads as NotFound and is not listed |
| Properties.DeleteKeepsOtherFiles | FileServer/src/main/java/ca/concordia/filesystem/FileSystemManager.java:57-79 | Under the invariant deleteFile leaves what every other name reads unchanged |
| Properties.DeleteFreesBlocks | FileServer/src/main/java/ca/concordia/filesystem/FileSystemManager.java:67-78 | Under the invariant the blocks of a deleted file are free in the bitmap afterwards |
| Properties.DeleteThenWriteFits | FileServer/src/main/java/ca/concordia/filesystem/FileSystemManager.java:57-102 | Under the invariant, after a delete, a write to any file whose contents need no more blocks than the deleted file held never fails with NoContiguousSpace |
| Properties.WriteUsesFreeBlocks | FileServer/src/main/java/ca/concordia/filesystem/FileSystemManager.java:97-102 | Every block a successful write gives a file was free, apart from the file's own, before the write |
| Properties.FormatInvariant | FileServer/src/main/java/ca/concordia/filesystem/FileSystemManager.java:18-25 | A freshly formatted disk satisfies the invariant: a consistent directory persisted in block 0 |
| Properties.ApplyPreservesInvariant | FileServer/src/main/java/ca/concordia/filesystem/FileSystemManager.java:30-127 | Every create, delete and write, failing or not, keeps the directory consistent and persisted |
| Properties.RunPreservesInvariant | FileServer/src/main/java/ca/concordia/filesystem/FileSystemManager.java:30-127 | Any sequence of calls from a state satisfying the invariant ends in one |
| Properties.ApplyKeepsStorable | FileServer/src/main/java/ca/concordia/filesystem/FileSystemManager.java:30-127 | A call keeps every live name storable when a create is given a storable name |
| Properties.RunSurvivesRestart | FileServer/src/main/java/ca/concordia/filesystem/FileSystemManager.java:18-28 | After any sequence of calls creating only storable names, reopening the disk gives back the engine's state |
| Properties.FormatRunSurvivesRestart | FileServer/src/main/java/ca/concordia/filesystem/FileSystemManager.java:18-28 | From a freshly formatted disk, any such sequence leaves a disk that reopens to the same state |

## Left out

- Concurrency: every public method is `synchronized`. The model takes the
  calls one at a time, in the order the lock admits them.
- File I/O is not modelled; the disk is an in-memory byte array.
  - The `RandomAccessFile` calls, `setLength` and `getFD().sync()` are
    replaced by writes to that array.
  - The file name given to the constructor is not modelled. The choice
    between formatting and loading is made by calling `Format` or
    `Mount(image)`.
  - An I/O error on write is not modelled.
- The disk has exactly DiskSize bytes. `totalSize` is taken to be 1280, and
  an existing disk file of another length is not modelled.
- FileSystem.FileSystemManager.ZeroBlocks: a write past the end of the disk
  is dropped. Java grows the file instead, but only a corrupt entry loaded
  from disk can have an extent that reaches past the end.
- Names are byte sequences. The following are not modelled:
  - Java's UTF-16 strings and the UTF-8 conversion in `writeMetadata` and
    `loadMetadata`;
  - the length check in `createFile`, which counts characters, not bytes;
  - `String.trim` is modelled on bytes: it drops bytes <= 0x20 at both ends.
- A `null` file name is not modelled. A `null` contents array is modelled as
  the empty sequence.
- Exception messages are not modelled; each failure is an `Error` value.
- `computeUsedBlocks` skips the ignored entry by reference. The model skips
  it by slot index, which selects the same entry.
- FileServer.java, the network front end, is not part of this model.
- Allocator.BlocksNeeded: the block count is the exact ceiling, without the
  32-bit wrap of the code as written. The wrap hits sizes of 2^31 - 127 bytes
  and more. For those sizes the model's writeFile reports `FileTooLarge`,
  and the as-written behaviour is recorded under Findings.

## Findings

| source | as written | input that shows it | evidently intended | confidence | as-written member | corrected member |
|---|---|---|---|---|---|---|
| FileServer/src/main/java/ca/concordia/filesystem/FileSystemManager.java:188-191 | `size + BLOCK_SIZE - 1` is computed in 32-bit `int`, so `blocksNeeded` is negative for sizes from 2^31 - 127 up to 2^31 - 1. writeFile's check at line 93 then passes, `findContiguousFreeRun` returns 1, nothing is written, and lines 123-124 store `(short) size` with first block 1 | contents of 2147483600 bytes: -16777215 blocks, stored size -48 | `FileTooLarge`, because the contents need more than the nine data blocks | not executed; derived from the code text | Allocator.BlocksNeededIntWraps | Allocator.BlocksNeeded |
