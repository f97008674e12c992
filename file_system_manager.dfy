/** FileSystemManager: the directory array and the disk image, updated in
    place. Every public operation is proved to move the pair (entries, disk)
    exactly as the matching function of module Engine does, and to return the
    same outcome. */
module FileSystem {
  import opened Layout
  import opened Codec
  import opened Allocator
  import opened Directory
  import opened Engine

  class FileSystemManager {
    /** The directory: slot k holds the entry of a file or nothing. */
    const entries: array<Option<Entry>>
    /** The disk image: MaxBlocks blocks of BlockSize bytes. */
    const disk: array<Byte>

    predicate Valid()
      reads this
    {
      entries.Length == MaxFiles && disk.Length == DiskSize
    }

    /** The engine state the object holds. */
    function Snapshot(): (s: State)
      reads this, entries, disk
      requires Valid()
      ensures WellFormed(s)
    {
      State(entries[..], disk[..])
    }

    /** Opening an empty disk file: it is sized to DiskSize zero bytes, block 0
        is cleared and the empty directory is written. */
    constructor Format()
      ensures Valid() && fresh(entries) && fresh(disk)
      ensures Snapshot() == FormatState()
    {
      entries := new Option<Entry>[MaxFiles](_ => None);
      disk := new Byte[DiskSize](_ => 0);
      new;
      assert disk[..] == Zeros(DiskSize);
      InitEmptyFileSystem();
      OverwriteZeros();
      assert entries[..] == seq(MaxFiles, _ => None);
      WriteMetadata();
    }

    /** Opening a disk file that already holds data: the directory is loaded. */
    constructor Mount(image: seq<Byte>)
      requires |image| == DiskSize
      ensures Valid() && fresh(entries) && fresh(disk)
      ensures Snapshot() == MountState(image)
    {
      entries := new Option<Entry>[MaxFiles](_ => None);
      disk := new Byte[DiskSize](p requires 0 <= p < DiskSize => image[p]);
      new;
      assert disk[..] == image;
      LoadMetadata();
    }

    /** seek(pos) followed by write(data). */
    method WriteAt(pos: int, data: seq<Byte>)
      requires Valid() && 0 <= pos && pos + |data| <= DiskSize
      modifies disk
      ensures disk[..] == Overwrite(old(disk[..]), pos, data)
    {
      ghost var before := disk[..];
      var k := 0;
      while k < |data|
        invariant 0 <= k <= |data|
        invariant forall p :: 0 <= p < DiskSize ==>
                    disk[p] == if pos <= p < pos + k then data[p - pos] else before[p]
      {
        disk[pos + k] := data[k];
        k := k + 1;
      }
      OverwriteBytes(before, pos, data);
      assert Overwrite(before, pos, data)[pos .. pos + |data|] == data;
      forall p | 0 <= p < DiskSize ensures disk[p] == Overwrite(before, pos, data)[p] {
        if pos <= p < pos + |data| {
          assert Overwrite(before, pos, data)[p] == Overwrite(before, pos, data)[pos .. pos + |data|][p - pos];
        }
      }
    }

    /** initEmptyFileSystem: clear the directory block. */
    method InitEmptyFileSystem()
      requires Valid()
      modifies disk
      ensures disk[..] == Overwrite(old(disk[..]), 0, Zeros(BlockSize))
    {
      WriteAt(0, Zeros(BlockSize));
    }

    /** One directory record: the name field, then the size and the first
        block as big-endian shorts. */
    method WriteRecord(pos: int, field: seq<Byte>, size: Short, first: Short)
      requires Valid() && |field| == NameLength && 0 <= pos && pos + RecordSize <= DiskSize
      modifies disk
      ensures disk[..] == Overwrite(old(disk[..]), pos, field + EncodeShort(size) + EncodeShort(first))
    {
      ghost var before := disk[..];
      WriteAt(pos, field);
      WriteAt(pos + NameLength, EncodeShort(size));
      OverwriteAdjacent(before, pos, field, EncodeShort(size));
      WriteAt(pos + NameLength + 2, EncodeShort(first));
      OverwriteAdjacent(before, pos, field + EncodeShort(size), EncodeShort(first));
    }

    /** The record of slot `i`: an empty slot is written as an all-zero name,
        size 0 and first block -1. */
    method WriteSlot(i: int)
      requires Valid() && 0 <= i < MaxFiles
      modifies disk
      ensures disk[..] == Overwrite(old(disk[..]), RecordSize * i, EncodeRecord(entries[i]))
    {
      match entries[i] {
        case None =>
          WriteRecord(RecordSize * i, Zeros(NameLength), 0, NoBlock);
        case Some(e) =>
          WriteRecord(RecordSize * i, EncodeName(e.name), e.size, e.firstBlock);
      }
    }

    /** writeMetadata: the directory records, in slot order, from offset 0. */
    method WriteMetadata()
      requires Valid()
      modifies disk
      ensures Snapshot() == Persist(old(Snapshot()))
    {
      ghost var before := disk[..];
      var i := 0;
      assert EncodeDirectory(entries[..0]) == [];
      assert Overwrite(before, 0, []) == before;
      while i < MaxFiles
        invariant 0 <= i <= MaxFiles
        invariant disk[..] == Overwrite(before, 0, EncodeDirectory(entries[..i]))
      {
        ghost var done := disk[..];
        WriteSlot(i);
        PersistStep(before, done, disk[..], entries[..], i);
        i := i + 1;
      }
      assert entries[..i] == entries[..];
    }

    /** One record of loadMetadata: the name field, then the size and the
        first block; a name that trims to nothing leaves the slot free. */
    method LoadSlot(i: int)
      requires Valid() && 0 <= i < MaxFiles
      modifies entries
      ensures entries[..] == old(entries[..])[i := DecodeRecord(RecordAt(disk[..], i))]
    {
      var pos := RecordSize * i;
      var nameBuf := disk[pos .. pos + NameLength];
      var size := DecodeShort(disk[pos + NameLength], disk[pos + NameLength + 1]);
      var firstBlock := DecodeShort(disk[pos + NameLength + 2], disk[pos + NameLength + 3]);
      var name := Trim(nameBuf);
      DecodeRecordAt(disk[..], i);
      if name == [] {
        entries[i] := None;
      } else {
        entries[i] := Some(Entry(name, size, firstBlock));
      }
    }

    /** loadMetadata: each record's name field is trimmed; an empty name is a
        free slot, any other gives an entry with the stored size and first block. */
    method LoadMetadata()
      requires Valid()
      modifies entries
      ensures Snapshot() == MountState(old(disk[..]))
    {
      var i := 0;
      while i < MaxFiles
        invariant 0 <= i <= MaxFiles
        invariant entries[..i] == DecodeSlots(disk[..], i)
      {
        LoadSlot(i);
        assert entries[..i + 1] == entries[..i] + [entries[i]];
        i := i + 1;
      }
      assert entries[..] == entries[..i];
    }

    /** findEntryIndex: the lowest slot holding `name`, or -1. */
    method FindEntryIndex(name: seq<Byte>) returns (idx: int)
      requires Valid()
      ensures idx == FindSlot(entries[..], name)
    {
      var i := 0;
      while i < MaxFiles
        invariant 0 <= i <= MaxFiles
        invariant forall k :: 0 <= k < i ==> !Named(entries[k], name)
      {
        if entries[i] != None && entries[i].value.name == name {
          return i;
        }
        i := i + 1;
      }
      return -1;
    }

    /** computeUsedBlocks: block 0, then the in-range blocks of every live
        entry with a positive size and a first block past 0, except the entry
        in slot `ignore`. */
    method ComputeUsedBlocks(ignore: int) returns (used: array<bool>)
      requires Valid()
      ensures used.Length == MaxBlocks && used[..] == UsedMap(entries[..], ignore)
    {
      used := new bool[MaxBlocks](_ => false);
      used[MetaBlock] := true;
      var k := 0;
      while k < MaxFiles
        invariant 0 <= k <= MaxFiles
        invariant forall b :: 0 <= b < MaxBlocks ==> used[b] == Used(entries[..k], ignore, b)
      {
        forall b | 0 <= b < MaxBlocks ensures Used(entries[..k + 1], ignore, b) <==>
            Used(entries[..k], ignore, b) || (k != ignore && entries[k].Some? && Occupies(entries[k].value, b)) {
          UsedSnoc(entries[..], ignore, k, b);
        }
        if entries[k] == None || k == ignore {
          k := k + 1;
          continue;
        }
        var e := entries[k].value;
        var size, first := e.size, e.firstBlock;
        if size <= 0 || first < 1 {
          k := k + 1;
          continue;
        }
        var blocks := BlocksNeeded(size);
        var i := 0;
        while i < blocks
          invariant 0 <= i <= blocks
          invariant forall b :: 0 <= b < MaxBlocks ==> used[b] == (Used(entries[..k], ignore, b) || first <= b < first + i)
        {
          var idx := first + i;
          if idx >= 0 && idx < MaxBlocks {
            used[idx] := true;
          }
          i := i + 1;
        }
        k := k + 1;
      }
      assert entries[..k] == entries[..];
    }

    /** findContiguousFreeRun: scan starts from block 1; on a used block the
        next candidate start is the block after it. */
    method FindContiguousFreeRun(used: array<bool>, count: nat) returns (start: int)
      requires used.Length == MaxBlocks
      ensures start == FirstFit(used[..], count)
    {
      if count == 0 {
        return -1;
      }
      start := 1;
      while start + count <= MaxBlocks
        invariant 1 <= start
        invariant forall t :: 1 <= t < start ==> !IsFreeRun(used[..], t, count)
        decreases MaxBlocks - start
      {
        ghost var candidate := start;
        var ok := true;
        var i := 0;
        while i < count
          invariant 0 <= i <= count
          invariant forall j :: start <= j < start + i ==> !used[j]
        {
          if used[start + i] {
            ok := false;
            // every start from the candidate up to the used block covers it
            assert forall t :: candidate <= t <= start + i ==> !IsFreeRun(used[..], t, count);
            start := start + i + 1;
            break;
          }
          i := i + 1;
        }
        if ok {
          assert IsFreeRun(used[..], start, count);
          return start;
        }
      }
      return -1;
    }

    /** createFile. */
    method CreateFile(name: seq<Byte>) returns (o: Outcome)
      requires Valid()
      modifies entries, disk
      ensures (Snapshot(), o) == CreateSpec(old(Snapshot()), name)
    {
      if |name| == 0 {
        return Fail(EmptyName);
      }
      if |name| > NameLength {
        return Fail(NameTooLong);
      }
      var existingIndex := FindEntryIndex(name);
      if existingIndex != -1 {
        return Pass;
      }
      var freeIndex := -1;
      var i := 0;
      while i < MaxFiles
        invariant 0 <= i <= MaxFiles
        invariant forall k :: 0 <= k < i ==> entries[k].Some?
      {
        if entries[i] == None {
          freeIndex := i;
          break;
        }
        i := i + 1;
      }
      assert freeIndex == FreeSlot(entries[..]);
      if freeIndex == -1 {
        return Fail(DirectoryFull);
      }
      entries[freeIndex] := Some(Entry(name, 0, NoBlock));
      WriteMetadata();
      return Pass;
    }

    /** deleteFile: the blocks of the extent are zeroed one by one, then the
        slot is freed and the directory written. */
    method DeleteFile(name: seq<Byte>) returns (o: Outcome)
      requires Valid()
      modifies entries, disk
      ensures (Snapshot(), o) == DeleteSpec(old(Snapshot()), name)
    {
      var idx := FindEntryIndex(name);
      if idx == -1 {
        return Fail(NotFound);
      }
      var e := entries[idx].value;
      var size, firstBlock := e.size, e.firstBlock;
      if firstBlock >= 1 && size > 0 {
        ZeroBlocks(firstBlock, BlocksNeeded(size));
      }
      assert disk[..] == if HasExtent(e) then ZeroRange(old(disk[..]), firstBlock * BlockSize, ExtentEnd(e) * BlockSize)
                         else old(disk[..]);
      entries[idx] := None;
      assert entries[..] == old(entries[..])[idx := None];
      WriteMetadata();
      return Pass;
    }

    /** The block loop of deleteFile: blocks firstBlock .. firstBlock + blocks - 1
        are overwritten with zeros; a block past the end of the disk is dropped. */
    method ZeroBlocks(firstBlock: int, blocks: nat)
      requires Valid() && firstBlock >= 1
      modifies disk
      ensures disk[..] == ZeroRange(old(disk[..]), firstBlock * BlockSize, (firstBlock + blocks) * BlockSize)
    {
      ghost var before := disk[..];
      var i := 0;
      while i < blocks
        invariant 0 <= i <= blocks
        invariant forall p :: 0 <= p < DiskSize ==>
                    disk[p] == if firstBlock * BlockSize <= p < (firstBlock + i) * BlockSize then 0 else before[p]
      {
        var pos := (firstBlock + i) * BlockSize;
        if pos + BlockSize <= DiskSize {
          ghost var prev := disk[..];
          WriteAt(pos, Zeros(BlockSize));
          OverwriteAt(prev, pos, Zeros(BlockSize));
        }
        i := i + 1;
      }
    }

    /** writeFile: the contents go block by block into the first free run,
        the last block padded with zeros; then the entry records the new size
        and first block, and the directory is written. */
    method WriteFile(name: seq<Byte>, contents: seq<Byte>) returns (o: Outcome)
      requires Valid()
      modifies entries, disk
      ensures (Snapshot(), o) == WriteSpec(old(Snapshot()), name, contents)
    {
      var idx := FindEntryIndex(name);
      if idx == -1 {
        return Fail(NotFound);
      }
      var size := |contents|;
      var neededBlocks := BlocksNeeded(size);
      if neededBlocks > MaxBlocks - 1 {
        return Fail(FileTooLarge);
      }
      var used := ComputeUsedBlocks(idx);
      var startBlock := FindContiguousFreeRun(used, neededBlocks);
      if neededBlocks > 0 && startBlock == -1 {
        return Fail(NoContiguousSpace);
      }
      if neededBlocks > 0 {
        WriteBlocks(startBlock, contents, neededBlocks);
      }
      var e := entries[idx].value;
      entries[idx] := Some(e.(size := size, firstBlock := if neededBlocks == 0 then NoBlock else startBlock));
      WriteMetadata();
      return Pass;
    }

    /** One block of writeFile: `data`, then zeros to the end of the block
        when `data` is shorter than a block. */
    method WriteBlock(pos: int, data: seq<Byte>)
      requires Valid() && |data| <= BlockSize && 0 <= pos && pos + BlockSize <= DiskSize
      modifies disk
      ensures disk[..] == Overwrite(old(disk[..]), pos, data + Zeros(BlockSize - |data|))
    {
      ghost var before := disk[..];
      WriteAt(pos, data);
      if |data| < BlockSize {
        WriteAt(pos + |data|, Zeros(BlockSize - |data|));
        OverwriteAdjacent(before, pos, data, Zeros(BlockSize - |data|));
      } else {
        assert data + Zeros(0) == data;
      }
    }

    /** The block loop of writeFile: block i of the run gets the next at most
        BlockSize bytes of the contents, the last one padded with zeros. */
    method WriteBlocks(startBlock: int, contents: seq<Byte>, neededBlocks: nat)
      requires Valid() && 1 <= startBlock && startBlock + neededBlocks <= MaxBlocks
      requires neededBlocks == BlocksNeeded(|contents|)
      modifies disk
      ensures disk[..] == Overwrite(old(disk[..]), startBlock * BlockSize, Padded(contents, neededBlocks))
    {
      ghost var before := disk[..];
      ghost var image := Padded(contents, neededBlocks);
      var size := |contents|;
      var offset := 0;
      var i := 0;
      while i < neededBlocks
        invariant 0 <= i <= neededBlocks
        invariant i < neededBlocks ==> offset == i * BlockSize
        invariant disk[..] == Overwrite(before, startBlock * BlockSize, image[..i * BlockSize])
      {
        var pos := (startBlock + i) * BlockSize;
        var remaining := size - offset;
        var toWrite := Min(remaining, BlockSize);
        var chunk := contents[offset .. offset + toWrite];
        PlacedStep(before, disk[..], contents, neededBlocks, startBlock, i, pos, chunk);
        WriteBlock(pos, chunk);
        offset := offset + toWrite;
        i := i + 1;
      }
      assert image[..neededBlocks * BlockSize] == image;
    }

    /** readFile: the entry's size in bytes, read block by block from its
        first block; a read past the end of the disk fails. */
    method ReadFile(name: seq<Byte>) returns (r: Result<seq<Byte>>)
      requires Valid()
      ensures r == ReadSpec(Snapshot(), name)
    {
      var idx := FindEntryIndex(name);
      if idx == -1 {
        return Err(NotFound);
      }
      var e := entries[idx].value;
      var size := e.size;
      if size <= 0 {
        return Ok([]);
      }
      var firstBlock := e.firstBlock;
      if firstBlock < 1 {
        return Err(CorruptMetadata);
      }
      var blocks := BlocksNeeded(size);
      var result: seq<Byte> := [];
      var offset := 0;
      var i := 0;
      while i < blocks
        invariant 0 <= i <= blocks
        invariant offset == Min(i * BlockSize, size)
        invariant i == 0 ==> result == []
        invariant i > 0 ==> firstBlock * BlockSize + offset <= DiskSize &&
                            result == disk[firstBlock * BlockSize .. firstBlock * BlockSize + offset]
      {
        var pos := (firstBlock + i) * BlockSize;
        var remaining := size - offset;
        var toRead := Min(remaining, BlockSize);
        if pos + toRead > DiskSize {
          return Err(IOFailure);
        }
        result := result + disk[pos .. pos + toRead];
        offset := offset + toRead;
        i := i + 1;
      }
      return Ok(result);
    }

    /** listFiles: the names of the live entries, in slot order. */
    method ListFiles() returns (names: seq<seq<Byte>>)
      requires Valid()
      ensures names == Names(entries[..])
    {
      names := [];
      var k := 0;
      while k < MaxFiles
        invariant 0 <= k <= MaxFiles
        invariant names == Names(entries[..k])
      {
        if entries[k] != None {
          names := names + [entries[k].value.name];
        }
        assert entries[..k + 1][..k] == entries[..k];
        k := k + 1;
      }
      assert entries[..k] == entries[..];
    }
  }
}
