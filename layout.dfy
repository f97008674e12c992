/** Fixed parameters of the simulated disk, its byte-level types, the directory
    entry, and the error values that replace the engine's exceptions. */
module Layout {

  /** Number of directory slots. */
  const MaxFiles: nat := 5
  /** Number of blocks on the disk; block 0 holds the directory. */
  const MaxBlocks: nat := 10
  /** Bytes per block. */
  const BlockSize: nat := 128
  /** The block reserved for the directory. */
  const MetaBlock: nat := 0
  /** Width of the on-disk name field, and the longest name createFile accepts. */
  const NameLength: nat := 11
  /** One directory record: the name field, a 16-bit size and a 16-bit first block. */
  const RecordSize: nat := 15
  /** Total size of the disk: MaxBlocks blocks of BlockSize bytes. */
  const DiskSize: nat := 1280
  /** Bytes of block 0 the directory occupies: MaxFiles records. */
  const DirectorySize: nat := 75
  /** First-block value of a file that owns no blocks. */
  const NoBlock: int := -1

  type Byte = b: int | 0 <= b < 0x100
  /** Java's 16-bit signed `short`, the type of a stored size and first block. */
  type Short = v: int | -0x8000 <= v < 0x8000

  /** A directory entry (FEntry): file name, byte count and first block of its extent. */
  datatype Entry = Entry(name: seq<Byte>, size: Short, firstBlock: Short)

  datatype Option<T> = None | Some(value: T)

  /** The failures the engine reports. */
  datatype Error =
    | EmptyName          // createFile: the name is empty
    | NameTooLong        // createFile: the name is longer than NameLength
    | NotFound           // no live entry has the name
    | DirectoryFull      // createFile: every slot is in use
    | FileTooLarge       // writeFile: the contents need more than the data blocks
    | NoContiguousSpace  // writeFile: no run of free blocks is long enough
    | CorruptMetadata    // readFile: a non-empty file without a first block
    | IOFailure          // readFile: the extent runs past the end of the disk

  /** Result of an operation that returns nothing. */
  datatype Outcome = Pass | Fail(error: Error)

  /** Result of an operation that returns a value. */
  datatype Result<T> = Ok(value: T) | Err(error: Error)

  function Zeros(n: nat): (z: seq<Byte>)
    ensures |z| == n
  {
    seq(n, _ => 0)
  }

  /** Math.min. */
  function Min(a: int, b: int): (m: int)
    ensures m <= a && m <= b && (m == a || m == b)
  {
    if a <= b then a else b
  }
}
