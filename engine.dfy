/** The storage engine as a state machine over the directory slots and the
    disk bytes. Each operation is a function from the state before the call
    to the state after it and the call's outcome; the methods of
    FileSystemManager are proved to do exactly this. */
module Engine {
  import opened Layout
  import opened Codec
  import opened Allocator
  import opened Directory

  /** The whole engine: the in-memory directory and the disk image. */
  datatype State = State(entries: seq<Option<Entry>>, disk: seq<Byte>)

  predicate WellFormed(s: State)
  {
    |s.entries| == MaxFiles && |s.disk| == DiskSize
  }

  /** The disk after `data` is written at byte offset `pos`. */
  function Overwrite(disk: seq<Byte>, pos: int, data: seq<Byte>): (r: seq<Byte>)
    requires 0 <= pos && pos + |data| <= |disk|
    ensures |r| == |disk|
  {
    disk[..pos] + data + disk[pos + |data|..]
  }

  /** Overwrite puts `data` at `pos` and keeps every other byte. */
  lemma OverwriteBytes(disk: seq<Byte>, pos: int, data: seq<Byte>)
    requires 0 <= pos && pos + |data| <= |disk|
    ensures var r := Overwrite(disk, pos, data);
            && r[pos .. pos + |data|] == data
            && forall p :: 0 <= p < |r| && !(pos <= p < pos + |data|) ==> r[p] == disk[p]
  {
  }

  /** The same, byte by byte. */
  lemma OverwriteAt(disk: seq<Byte>, pos: int, data: seq<Byte>)
    requires 0 <= pos && pos + |data| <= |disk|
    ensures forall p :: 0 <= p < |disk| ==>
              Overwrite(disk, pos, data)[p] == if pos <= p < pos + |data| then data[p - pos] else disk[p]
  {
  }

  /** Two writes at adjacent offsets are one write of the concatenation. */
  lemma OverwriteAdjacent(disk: seq<Byte>, pos: int, a: seq<Byte>, b: seq<Byte>)
    requires 0 <= pos && pos + |a| + |b| <= |disk|
    ensures Overwrite(Overwrite(disk, pos, a), pos + |a|, b) == Overwrite(disk, pos, a + b)
  {
    var lhs, rhs := Overwrite(Overwrite(disk, pos, a), pos + |a|, b), Overwrite(disk, pos, a + b);
    OverwriteBytes(disk, pos, a);
    OverwriteBytes(Overwrite(disk, pos, a), pos + |a|, b);
    OverwriteBytes(disk, pos, a + b);
    assert lhs[pos .. pos + |a|] == (a + b)[..|a|];
    forall p | 0 <= p < |disk| ensures lhs[p] == rhs[p] {
      if pos <= p < pos + |a| {
        assert lhs[p] == lhs[pos .. pos + |a|][p - pos];
      } else if pos + |a| <= p < pos + |a| + |b| {
        assert lhs[p] == lhs[pos + |a| .. pos + |a| + |b|][p - pos - |a|];
        assert rhs[p] == rhs[pos .. pos + |a| + |b|][p - pos];
      }
    }
  }

  /** Clearing block 0 of an all-zero disk leaves it all zero. */
  lemma OverwriteZeros()
    ensures Overwrite(Zeros(DiskSize), 0, Zeros(BlockSize)) == Zeros(DiskSize)
  {
    OverwriteBytes(Zeros(DiskSize), 0, Zeros(BlockSize));
  }

  /** One more record written after the records of slots 0 .. i - 1 gives the
      records of slots 0 .. i. */
  lemma PersistStep(before: seq<Byte>, done: seq<Byte>, after: seq<Byte>, slots: seq<Option<Entry>>, i: int)
    requires 0 <= i < |slots| && RecordSize * (i + 1) <= |before|
    requires done == Overwrite(before, 0, EncodeDirectory(slots[..i]))
    requires after == Overwrite(done, RecordSize * i, EncodeRecord(slots[i]))
    ensures after == Overwrite(before, 0, EncodeDirectory(slots[..i + 1]))
  {
    OverwriteAdjacent(before, 0, EncodeDirectory(slots[..i]), EncodeRecord(slots[i]));
    EncodeDirectorySnoc(slots, i);
  }

  /** The disk with the bytes lo .. hi - 1 that lie on it set to zero. */
  function ZeroRange(disk: seq<Byte>, lo: int, hi: int): (r: seq<Byte>)
    ensures |r| == |disk|
  {
    seq(|disk|, p requires 0 <= p < |disk| => if lo <= p < hi then 0 else disk[p])
  }

  /** writeMetadata: the directory encoded into the start of block 0. */
  function Persist(s: State): (t: State)
    requires WellFormed(s)
    ensures WellFormed(t) && t.entries == s.entries
  {
    State(s.entries, Overwrite(s.disk, 0, EncodeDirectory(s.entries)))
  }

  /** Block 0 holds the encoding of the in-memory directory. */
  predicate Persisted(s: State)
    requires WellFormed(s)
  {
    s.disk[..DirectorySize] == EncodeDirectory(s.entries)
  }

  /** After writeMetadata block 0 holds the directory and the data blocks are
      as they were. */
  lemma PersistBytes(s: State)
    requires WellFormed(s)
    ensures Persisted(Persist(s))
    ensures forall p :: DirectorySize <= p < DiskSize ==> Persist(s).disk[p] == s.disk[p]
  {
    OverwriteBytes(s.disk, 0, EncodeDirectory(s.entries));
  }

  /** The blocks written for `contents`: the bytes, then zeros to the end of block `n`. */
  function Padded(contents: seq<Byte>, n: nat): (image: seq<Byte>)
    requires |contents| <= n * BlockSize
    ensures |image| == n * BlockSize
    ensures image[..|contents|] == contents
  {
    contents + Zeros(n * BlockSize - |contents|)
  }

  /** Block `i` of the padded image: what is left of the contents, at most a
      block of it, then zeros to the end of the block. */
  lemma PaddedChunk(contents: seq<Byte>, n: nat, i: nat)
    requires i < n && |contents| <= n * BlockSize && i * BlockSize <= |contents|
    ensures var off := i * BlockSize;
            var size := Min(|contents| - off, BlockSize);
            contents[off .. off + size] + Zeros(BlockSize - size) == Padded(contents, n)[off .. off + BlockSize]
  {
    var off, image := i * BlockSize, Padded(contents, n);
    var size := Min(|contents| - off, BlockSize);
    var chunk := contents[off .. off + size] + Zeros(BlockSize - size);
    forall k | 0 <= k < BlockSize ensures chunk[k] == image[off + k] {
      if k < size {
        assert image[off + k] == image[..|contents|][off + k];
      }
    }
  }

  /** One more block of the padded image written after the first i blocks
    of the run gives the first i + 1 blocks. */
  lemma PlacedStep(before: seq<Byte>, prev: seq<Byte>, contents: seq<Byte>, n: nat, start: int, i: nat,
                   pos: int, chunk: seq<Byte>)
    requires |before| == DiskSize && 1 <= start && start + n <= MaxBlocks
    requires n == BlocksNeeded(|contents|) && i < n
    requires prev == Overwrite(before, start * BlockSize, Padded(contents, n)[..i * BlockSize])
    requires pos == (start + i) * BlockSize
    requires chunk == contents[i * BlockSize .. i * BlockSize + Min(|contents| - i * BlockSize, BlockSize)]
    ensures Overwrite(prev, pos, chunk + Zeros(BlockSize - |chunk|))
              == Overwrite(before, start * BlockSize, Padded(contents, n)[..(i + 1) * BlockSize])
  {
    var image := Padded(contents, n);
    PaddedChunk(contents, n, i);
    OverwriteAdjacent(before, start * BlockSize, image[..i * BlockSize], image[i * BlockSize .. (i + 1) * BlockSize]);
    assert image[..i * BlockSize] + image[i * BlockSize .. (i + 1) * BlockSize] == image[..(i + 1) * BlockSize];
  }

  /** A freshly created disk: all zeros, no files, and the empty directory written. */
  function FormatState(): (s: State)
    ensures WellFormed(s)
  {
    Persist(State(seq(MaxFiles, _ => None), Zeros(DiskSize)))
  }

  /** A freshly created disk has no files, holds the empty directory in block 0
      and zeros everywhere else. */
  lemma FormatEmpty()
    ensures var s := FormatState();
            && (forall k :: 0 <= k < MaxFiles ==> s.entries[k].None?)
            && Persisted(s)
            && (forall p :: DirectorySize <= p < DiskSize ==> s.disk[p] == 0)
  {
    PersistBytes(State(seq(MaxFiles, _ => None), Zeros(DiskSize)));
  }


  /** Opening an existing disk image: the directory is loaded from block 0. */
  function MountState(image: seq<Byte>): (s: State)
    requires |image| == DiskSize
    ensures WellFormed(s) && s.disk == image
  {
    State(DecodeDirectory(image), image)
  }

  /** Reopening a disk whose block 0 holds the directory of `s`, all of whose
      names are storable, gives back `s`. */
  lemma PersistedReloads(s: State)
    requires WellFormed(s) && Persisted(s)
    requires forall k :: 0 <= k < MaxFiles && s.entries[k].Some? ==> StorableName(s.entries[k].value.name)
    ensures MountState(s.disk) == s
  {
    DirectoryRoundTrip(s.entries);
    DecodeSlotsPrefix(s.disk, DirectorySize, MaxFiles);
  }

  /** Reopening a freshly created disk gives back the fresh state: no files. */
  lemma FormatThenMount()
    ensures MountState(FormatState().disk) == FormatState()
  {
    FormatEmpty();
    PersistedReloads(FormatState());
  }

  // ---------------------------------------------------------------- operations

  /** createFile. */
  function CreateSpec(s: State, name: seq<Byte>): (r: (State, Outcome))
    requires WellFormed(s)
    ensures WellFormed(r.0)
  {
    if |name| == 0 then (s, Fail(EmptyName))
    else if |name| > NameLength then (s, Fail(NameTooLong))
    else if FindSlot(s.entries, name) != -1 then (s, Pass)
    else
      var i := FreeSlot(s.entries);
      if i == -1 then (s, Fail(DirectoryFull))
      else (Persist(State(s.entries[i := Some(Entry(name, 0, NoBlock))], s.disk)), Pass)
  }

  /** The outcomes of createFile: an empty or over-long name is refused; an
      existing name is a no-op; with every slot in use it fails; otherwise the
      lowest empty slot gets the name with size 0 and no block, the directory
      is persisted and no data byte changes. */
  lemma CreateOutcomes(s: State, name: seq<Byte>, t: State, o: Outcome)
    requires WellFormed(s) && (t, o) == CreateSpec(s, name)
    ensures o == Pass || o == Fail(EmptyName) || o == Fail(NameTooLong) || o == Fail(DirectoryFull)
    ensures o.Fail? ==> t == s
    ensures o == Fail(EmptyName) <==> |name| == 0
    ensures o == Fail(NameTooLong) <==> |name| > NameLength
    ensures 1 <= |name| <= NameLength && FindSlot(s.entries, name) != -1 ==> t == s && o == Pass
    ensures o == Fail(DirectoryFull) <==>
              1 <= |name| <= NameLength && FindSlot(s.entries, name) == -1 &&
              forall k :: 0 <= k < MaxFiles ==> s.entries[k].Some?
    ensures o == Pass && FindSlot(s.entries, name) == -1 ==>
              FreeSlot(s.entries) != -1 &&
              t.entries == s.entries[FreeSlot(s.entries) := Some(Entry(name, 0, NoBlock))]
    ensures o == Pass && FindSlot(s.entries, name) == -1 ==>
              Persisted(t) && forall p :: DirectorySize <= p < DiskSize ==> t.disk[p] == s.disk[p]
  {
    if 1 <= |name| <= NameLength && FindSlot(s.entries, name) == -1 && FreeSlot(s.entries) != -1 {
      PersistBytes(State(s.entries[FreeSlot(s.entries) := Some(Entry(name, 0, NoBlock))], s.disk));
    }
  }

  /** deleteFile. */
  function DeleteSpec(s: State, name: seq<Byte>): (r: (State, Outcome))
    requires WellFormed(s)
    ensures WellFormed(r.0)
  {
    var i := FindSlot(s.entries, name);
    if i == -1 then (s, Fail(NotFound))
    else
      var e := s.entries[i].value;
      var disk := if HasExtent(e) then ZeroRange(s.disk, e.firstBlock * BlockSize, ExtentEnd(e) * BlockSize)
                  else s.disk;
      (Persist(State(s.entries[i := None], disk)), Pass)
  }

  /** The outcomes of deleteFile: NotFound, with nothing changed, exactly when
      no live entry has the name; otherwise the slot is emptied, the directory
      persisted, the blocks of the file's extent zeroed and every other data
      byte kept. */
  lemma DeleteOutcomes(s: State, name: seq<Byte>, t: State, o: Outcome)
    requires WellFormed(s) && (t, o) == DeleteSpec(s, name)
    ensures o == Pass || o == Fail(NotFound)
    ensures o.Fail? ==> t == s
    ensures o == Fail(NotFound) <==> FindSlot(s.entries, name) == -1
    ensures o == Pass ==>
              var i := FindSlot(s.entries, name);
              t.entries == s.entries[i := None] && Persisted(t) &&
              var e := s.entries[i].value;
              forall p :: DirectorySize <= p < DiskSize ==>
                t.disk[p] == if HasExtent(e) && e.firstBlock * BlockSize <= p < ExtentEnd(e) * BlockSize
                             then 0 else s.disk[p]
  {
    var i := FindSlot(s.entries, name);
    if i != -1 {
      var e := s.entries[i].value;
      var disk := if HasExtent(e) then ZeroRange(s.disk, e.firstBlock * BlockSize, ExtentEnd(e) * BlockSize)
                  else s.disk;
      PersistBytes(State(s.entries[i := None], disk));
    }
  }

  /** writeFile. */
  function WriteSpec(s: State, name: seq<Byte>, contents: seq<Byte>): (r: (State, Outcome))
    requires WellFormed(s)
    ensures WellFormed(r.0)
  {
    var i := FindSlot(s.entries, name);
    if i == -1 then (s, Fail(NotFound))
    else
      var n := BlocksNeeded(|contents|);
      if n > MaxBlocks - 1 then (s, Fail(FileTooLarge))
      else
        var start := FirstFit(UsedMap(s.entries, i), n);
        if n > 0 && start == -1 then (s, Fail(NoContiguousSpace))
        else
          var disk := if n == 0 then s.disk else Overwrite(s.disk, start * BlockSize, Padded(contents, n));
          var e := s.entries[i].value.(size := |contents|, firstBlock := if n == 0 then NoBlock else start);
          (Persist(State(s.entries[i := Some(e)], disk)), Pass)
  }

  /** How writeFile fails: NotFound when no live entry has the name,
      FileTooLarge when the contents need more than the nine data blocks, and
      NoContiguousSpace when no run of free data blocks is long enough; each
      failure leaves the state as it was. */
  lemma WriteFailures(s: State, name: seq<Byte>, contents: seq<Byte>, t: State, o: Outcome)
    requires WellFormed(s) && (t, o) == WriteSpec(s, name, contents)
    ensures o == Pass || o == Fail(NotFound) || o == Fail(FileTooLarge) || o == Fail(NoContiguousSpace)
    ensures o.Fail? ==> t == s
    ensures o == Fail(NotFound) <==> FindSlot(s.entries, name) == -1
    ensures o == Fail(FileTooLarge) <==>
              FindSlot(s.entries, name) != -1 && BlocksNeeded(|contents|) > MaxBlocks - 1
    ensures o == Fail(NoContiguousSpace) <==>
              var i, n := FindSlot(s.entries, name), BlocksNeeded(|contents|);
              i != -1 && 0 < n <= MaxBlocks - 1 && forall t :: !IsFreeRun(UsedMap(s.entries, i), t, n)
  {
  }

  /** A successful writeFile stores the new size and the first-fit start (or
      -1 for empty contents) in the file's entry, changes no other slot and
      persists the directory. */
  lemma WriteSuccess(s: State, name: seq<Byte>, contents: seq<Byte>, t: State)
    requires WellFormed(s) && (t, Pass) == WriteSpec(s, name, contents)
    ensures FindSlot(s.entries, name) != -1 && t.entries[FindSlot(s.entries, name)].Some?
    ensures var i, n := FindSlot(s.entries, name), BlocksNeeded(|contents|);
            var e := t.entries[i].value;
            && t.entries == s.entries[i := Some(e)]
            && e == Entry(name, |contents|, e.firstBlock)
            && (0 < n <==> HasExtent(e)) && n <= MaxBlocks - 1
            && (n == 0 ==> e.firstBlock == NoBlock)
            && (n > 0 ==> e.firstBlock == FirstFit(UsedMap(s.entries, i), n))
            && Persisted(t)
  {
    var i, n := FindSlot(s.entries, name), BlocksNeeded(|contents|);
    var start := FirstFit(UsedMap(s.entries, i), n);
    var disk := if n == 0 then s.disk else Overwrite(s.disk, start * BlockSize, Padded(contents, n));
    PersistBytes(State(t.entries, disk));
  }

  /** What a successful writeFile does to the data blocks: the new extent holds
      the contents padded with zeros to a block boundary, and every data byte
      outside it is unchanged. */
  lemma WriteDiskEffect(s: State, name: seq<Byte>, contents: seq<Byte>, t: State)
    requires WellFormed(s) && (t, Pass) == WriteSpec(s, name, contents)
    ensures var e := t.entries[FindSlot(s.entries, name)].value;
            var lo, hi := e.firstBlock * BlockSize, ExtentEnd(e) * BlockSize;
            && (HasExtent(e) ==> 0 <= lo <= hi <= DiskSize && t.disk[lo .. hi] == Padded(contents, BlocksNeeded(|contents|)))
            && forall p :: DirectorySize <= p < DiskSize && !(HasExtent(e) && lo <= p < hi) ==> t.disk[p] == s.disk[p]
  {
    var i, n := FindSlot(s.entries, name), BlocksNeeded(|contents|);
    if n > 0 {
      var start := FirstFit(UsedMap(s.entries, i), n);
      assert t == Persist(State(t.entries, Overwrite(s.disk, start * BlockSize, Padded(contents, n))));
      PersistPlaced(t.entries, s.disk, start, contents, n);
    } else {
      assert t == Persist(State(t.entries, s.disk));
      PersistBytes(State(t.entries, s.disk));
    }
  }

  /** The disk after the blocks of `contents` are placed at `start` and the
      directory is persisted. */
  lemma PersistPlaced(entries: seq<Option<Entry>>, disk: seq<Byte>, start: int, contents: seq<Byte>, n: nat)
    requires |entries| == MaxFiles && |disk| == DiskSize
    requires 1 <= start && start + n <= MaxBlocks && |contents| <= n * BlockSize
    ensures var t := Persist(State(entries, Overwrite(disk, start * BlockSize, Padded(contents, n))));
            var lo, hi := start * BlockSize, (start + n) * BlockSize;
            && t.disk[lo .. hi] == Padded(contents, n)
            && forall p :: DirectorySize <= p < DiskSize && !(lo <= p < hi) ==> t.disk[p] == disk[p]
  {
    var lo, image := start * BlockSize, Padded(contents, n);
    var placed := Overwrite(disk, lo, image);
    OverwriteBytes(disk, lo, image);
    PersistBytes(State(entries, placed));
    var t := Persist(State(entries, placed));
    assert (start + n) * BlockSize == lo + |image|;
    assert t.disk[lo .. lo + |image|] == placed[lo .. lo + |image|];
  }

  /** readFile. */
  function ReadSpec(s: State, name: seq<Byte>): (r: Result<seq<Byte>>)
    requires WellFormed(s)
    ensures r.Ok? ==> FindSlot(s.entries, name) != -1
  {
    var i := FindSlot(s.entries, name);
    if i == -1 then Err(NotFound)
    else
      var e := s.entries[i].value;
      if e.size <= 0 then Ok([])
      else if e.firstBlock < 1 then Err(CorruptMetadata)
      else if e.firstBlock * BlockSize + e.size > DiskSize then Err(IOFailure)
      else Ok(s.disk[e.firstBlock * BlockSize .. e.firstBlock * BlockSize + e.size])
  }

  /** The outcomes of readFile: NotFound exactly when no live entry has the
      name; CorruptMetadata exactly when a non-empty entry has a first block
      below 1; IOFailure exactly when the extent runs past the end of the disk;
      otherwise as many bytes as the entry's size (none for a size <= 0),
      taken from the disk from the entry's first block on. */
  lemma ReadOutcomes(s: State, name: seq<Byte>)
    requires WellFormed(s)
    ensures var r := ReadSpec(s, name);
            r.Ok? || r == Err(NotFound) || r == Err(CorruptMetadata) || r == Err(IOFailure)
    ensures var r, i := ReadSpec(s, name), FindSlot(s.entries, name);
            && (r == Err(NotFound) <==> i == -1)
            && (r == Err(CorruptMetadata) <==>
                  i != -1 && s.entries[i].value.size > 0 && s.entries[i].value.firstBlock < 1)
            && (r == Err(IOFailure) <==>
                  i != -1 && HasExtent(s.entries[i].value) &&
                  s.entries[i].value.firstBlock * BlockSize + s.entries[i].value.size > DiskSize)
    ensures var r, i := ReadSpec(s, name), FindSlot(s.entries, name);
            r.Ok? ==> var e := s.entries[i].value;
                      && |r.value| == (if e.size > 0 then e.size else 0)
                      && forall k :: 0 <= k < |r.value| ==> r.value[k] == s.disk[e.firstBlock * BlockSize + k]
  {
  }

  /** readFile depends only on the entry found and the bytes of its extent. */
  lemma ReadUnchanged(s: State, t: State, name: seq<Byte>)
    requires WellFormed(s) && WellFormed(t)
    requires FindSlot(s.entries, name) == FindSlot(t.entries, name)
    requires var i := FindSlot(s.entries, name);
             i != -1 ==>
               var e := s.entries[i].value;
               && t.entries[i] == s.entries[i]
               && forall p :: (HasExtent(e) && e.firstBlock * BlockSize <= p < e.firstBlock * BlockSize + e.size &&
                               p < DiskSize) ==> t.disk[p] == s.disk[p]
    ensures ReadSpec(t, name) == ReadSpec(s, name)
  {
    var i := FindSlot(s.entries, name);
    if i != -1 {
      var e := s.entries[i].value;
      if HasExtent(e) && e.firstBlock * BlockSize + e.size <= DiskSize {
        var lo, hi := e.firstBlock * BlockSize, e.firstBlock * BlockSize + e.size;
        assert t.disk[lo .. hi] == s.disk[lo .. hi];
      }
    }
  }
}
