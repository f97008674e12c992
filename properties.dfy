/** What the engine keeps true across calls: the directory invariant (block 0
    never allocated, extents inside blocks 1..9 and pairwise disjoint, unique
    names), reads returning what was written, files not disturbing each
    other, and the directory surviving a reload. */
module Properties {
  import opened Layout
  import opened Codec
  import opened Allocator
  import opened Directory
  import opened Engine

  /** An entry either owns no blocks (size 0, first block -1) or owns the
      blocks firstBlock .. ExtentEnd - 1, all within the data blocks 1..9. */
  predicate WellPlaced(e: Entry)
  {
    (e.size == 0 && e.firstBlock == NoBlock) ||
    (e.size > 0 && 1 <= e.firstBlock && ExtentEnd(e) <= MaxBlocks)
  }

  /** The directory invariant every engine operation preserves. */
  predicate Consistent(entries: seq<Option<Entry>>)
  {
    |entries| == MaxFiles &&
    (forall k :: 0 <= k < |entries| && entries[k].Some? ==>
       1 <= |entries[k].value.name| <= NameLength && WellPlaced(entries[k].value)) &&
    (forall j, k :: 0 <= j < |entries| && 0 <= k < |entries| && j != k && entries[j].Some? && entries[k].Some? ==>
       entries[j].value.name != entries[k].value.name && Disjoint(entries[j].value, entries[k].value))
  }

  /** Under the invariant no entry occupies the directory block, and every
      occupied block is a data block. */
  lemma ConsistentBlocks(entries: seq<Option<Entry>>, k: int, b: int)
    requires Consistent(entries) && 0 <= k < MaxFiles && entries[k].Some?
    requires Occupies(entries[k].value, b)
    ensures 1 <= b < MaxBlocks
  {
  }

  lemma FormatConsistent()
    ensures Consistent(FormatState().entries)
  {
    assert FormatState().entries == seq(MaxFiles, _ => None);
  }

  /** Putting into slot `i` an entry that clashes with no other live entry
      keeps the invariant. */
  lemma ConsistentSet(entries: seq<Option<Entry>>, i: int, e: Entry)
    requires Consistent(entries) && 0 <= i < MaxFiles
    requires 1 <= |e.name| <= NameLength && WellPlaced(e)
    requires forall k :: 0 <= k < MaxFiles && k != i && entries[k].Some? ==>
               entries[k].value.name != e.name && Disjoint(entries[k].value, e) && Disjoint(e, entries[k].value)
    ensures Consistent(entries[i := Some(e)])
  {
  }

  lemma CreatePreservesConsistency(s: State, name: seq<Byte>)
    requires WellFormed(s) && Consistent(s.entries)
    ensures Consistent(CreateSpec(s, name).0.entries)
  {
    var (t, o) := CreateSpec(s, name);
    if 1 <= |name| <= NameLength && FindSlot(s.entries, name) == -1 && FreeSlot(s.entries) != -1 {
      var i := FreeSlot(s.entries);
      assert t.entries == s.entries[i := Some(Entry(name, 0, NoBlock))];
      assert forall k :: 0 <= k < MaxFiles ==> !Named(s.entries[k], name);
      ConsistentSet(s.entries, i, Entry(name, 0, NoBlock));
    }
  }

  lemma DeletePreservesConsistency(s: State, name: seq<Byte>)
    requires WellFormed(s) && Consistent(s.entries)
    ensures Consistent(DeleteSpec(s, name).0.entries)
  {
  }

  /** The extent writeFile chooses misses block 0 and every other live extent,
      so the invariant survives the write. */
  lemma WritePreservesConsistency(s: State, name: seq<Byte>, contents: seq<Byte>)
    requires WellFormed(s) && Consistent(s.entries)
    ensures Consistent(WriteSpec(s, name, contents).0.entries)
  {
    var (t, o) := WriteSpec(s, name, contents);
    var i, n := FindSlot(s.entries, name), BlocksNeeded(|contents|);
    if o == Pass {
      WriteSuccess(s, name, contents, t);
      var e := t.entries[i].value;
      assert forall k :: 0 <= k < MaxFiles && k != i ==> !Named(s.entries[k], name);
      if n > 0 {
        FreeRunAvoidsOthers(s.entries, i, e.firstBlock, n);
        forall k | 0 <= k < MaxFiles && k != i && s.entries[k].Some?
          ensures Disjoint(e, s.entries[k].value) && Disjoint(s.entries[k].value, e)
        {
          DisjointMeansNoSharedBlock(e, s.entries[k].value);
          DisjointMeansNoSharedBlock(s.entries[k].value, e);
        }
      }
      ConsistentSet(s.entries, i, e);
    }
  }

  /** readFile of an entry whose size and extent match `data` returns `data`. */
  lemma ReadPlaced(t: State, name: seq<Byte>, data: seq<Byte>)
    requires WellFormed(t)
    requires FindSlot(t.entries, name) != -1
    requires var e := t.entries[FindSlot(t.entries, name)].value;
             && e.size == |data|
             && (|data| > 0 ==> 1 <= e.firstBlock && e.firstBlock * BlockSize + |data| <= DiskSize &&
                                t.disk[e.firstBlock * BlockSize .. e.firstBlock * BlockSize + |data|] == data)
    ensures ReadSpec(t, name) == Ok(data)
  {
  }

  /** readFile returns exactly the bytes the last successful writeFile stored. */
  lemma WriteThenRead(s: State, name: seq<Byte>, contents: seq<Byte>)
    requires WellFormed(s)
    requires WriteSpec(s, name, contents).1 == Pass
    ensures ReadSpec(WriteSpec(s, name, contents).0, name) == Ok(contents)
  {
    var t := WriteSpec(s, name, contents).0;
    WriteSuccess(s, name, contents, t);
    WriteDiskEffect(s, name, contents, t);
    var i := FindSlot(s.entries, name);
    FindSlotSameNames(s.entries, t.entries, name);
    ReadStored(t, i, name, contents);
  }

  /** The entry in slot `i` records `contents` and its extent holds them padded:
      readFile returns `contents`. */
  lemma ReadStored(t: State, i: int, name: seq<Byte>, contents: seq<Byte>)
    requires WellFormed(t) && FindSlot(t.entries, name) == i && i != -1
    requires var e := t.entries[i].value;
             var lo, hi := e.firstBlock * BlockSize, ExtentEnd(e) * BlockSize;
             && e.size == |contents| && (|contents| > 0 <==> HasExtent(e))
             && (HasExtent(e) ==> 0 <= lo <= hi <= DiskSize && t.disk[lo .. hi] == Padded(contents, BlocksNeeded(|contents|)))
    ensures ReadSpec(t, name) == Ok(contents)
  {
    var e := t.entries[i].value;
    if HasExtent(e) {
      var lo, hi := e.firstBlock * BlockSize, ExtentEnd(e) * BlockSize;
      assert t.disk[lo .. lo + |contents|] == t.disk[lo .. hi][..|contents|];
    }
    ReadPlaced(t, name, contents);
  }

  /** A successful write leaves what every other file reads unchanged. */
  lemma WriteKeepsOtherFiles(s: State, name: seq<Byte>, contents: seq<Byte>, other: seq<Byte>)
    requires WellFormed(s)
    requires name != other
    ensures ReadSpec(WriteSpec(s, name, contents).0, other) == ReadSpec(s, other)
  {
    var (t, o) := WriteSpec(s, name, contents);
    if o == Pass {
      WriteSuccess(s, name, contents, t);
      WriteDiskEffect(s, name, contents, t);
      var i, n := FindSlot(s.entries, name), BlocksNeeded(|contents|);
      FindSlotSameNames(s.entries, t.entries, other);
      var j, e := FindSlot(s.entries, other), t.entries[i].value;
      if j != -1 && n > 0 {
        FirstFitAvoids(s.entries, i, j, e);
      }
      ReadKept(s, t, other, e);
    }
  }

  /** When the only data bytes that changed lie in the extent of `e`, and that
      extent is disjoint from the extent of the entry found under `other`,
      readFile of `other` is unchanged. */
  lemma ReadKept(s: State, t: State, other: seq<Byte>, e: Entry)
    requires WellFormed(s) && WellFormed(t)
    requires FindSlot(s.entries, other) == FindSlot(t.entries, other)
    requires var j := FindSlot(s.entries, other);
             j != -1 ==> t.entries[j] == s.entries[j] && Disjoint(e, s.entries[j].value)
    requires forall p :: DirectorySize <= p < DiskSize &&
                         !(HasExtent(e) && e.firstBlock * BlockSize <= p < ExtentEnd(e) * BlockSize)
                         ==> t.disk[p] == s.disk[p]
    ensures ReadSpec(t, other) == ReadSpec(s, other)
  {
    ReadUnchanged(s, t, other);
  }

  /** Creating a file again once it exists changes nothing. */
  lemma CreateIdempotent(s: State, name: seq<Byte>)
    requires WellFormed(s) && CreateSpec(s, name).1 == Pass
    ensures var t := CreateSpec(s, name).0;
            CreateSpec(t, name) == (t, Pass)
  {
    var t := CreateSpec(s, name).0;
    CreateOutcomes(s, name, t, Pass);
    if FindSlot(s.entries, name) == -1 {
      assert Named(t.entries[FreeSlot(s.entries)], name);
    }
  }

  /** A newly created file reads as empty and is listed. */
  lemma CreateThenRead(s: State, name: seq<Byte>)
    requires WellFormed(s) && FindSlot(s.entries, name) == -1 && CreateSpec(s, name).1 == Pass
    ensures var t := CreateSpec(s, name).0;
            ReadSpec(t, name) == Ok([]) && name in Names(t.entries)
  {
    var t := CreateSpec(s, name).0;
    CreateOutcomes(s, name, t, Pass);
    assert Named(t.entries[FreeSlot(s.entries)], name);
    ReadPlaced(t, name, []);
  }

  /** Creating a file leaves what every other file reads unchanged. */
  lemma CreateKeepsOtherFiles(s: State, name: seq<Byte>, other: seq<Byte>)
    requires WellFormed(s) && other != name
    ensures ReadSpec(CreateSpec(s, name).0, other) == ReadSpec(s, other)
  {
    var (t, o) := CreateSpec(s, name);
    CreateOutcomes(s, name, t, o);
    if o == Pass && FindSlot(s.entries, name) == -1 {
      FindSlotSameNames(s.entries, t.entries, other);
      ReadUnchanged(s, t, other);
    }
  }

  /** Under the invariant names are unique, so a deleted file is gone: reading
      it fails with NotFound and it is no longer listed. */
  lemma DeleteThenRead(s: State, name: seq<Byte>)
    requires WellFormed(s) && Consistent(s.entries) && DeleteSpec(s, name).1 == Pass
    ensures var t := DeleteSpec(s, name).0;
            ReadSpec(t, name) == Err(NotFound) && name !in Names(t.entries)
  {
    var t := DeleteSpec(s, name).0;
    DeleteOutcomes(s, name, t, Pass);
    var i := FindSlot(s.entries, name);
    assert forall k :: 0 <= k < MaxFiles && k != i ==> !Named(s.entries[k], name);
    ReadOutcomes(t, name);
  }

  /** Under the invariant a delete leaves what every other file reads unchanged. */
  lemma DeleteKeepsOtherFiles(s: State, name: seq<Byte>, other: seq<Byte>)
    requires WellFormed(s) && Consistent(s.entries)
    requires name != other
    ensures ReadSpec(DeleteSpec(s, name).0, other) == ReadSpec(s, other)
  {
    var (t, o) := DeleteSpec(s, name);
    if o == Pass {
      DeleteOutcomes(s, name, t, o);
      var i := FindSlot(s.entries, name);
      FindSlotSameNames(s.entries, t.entries, other);
      ReadKept(s, t, other, s.entries[i].value);
    }
  }

  /** Under the invariant the blocks of a deleted file are free afterwards,
      whichever slot the bitmap ignores. */
  lemma DeleteFreesBlocks(s: State, name: seq<Byte>, ignore: int, b: int)
    requires WellFormed(s) && Consistent(s.entries) && DeleteSpec(s, name).1 == Pass
    requires Occupies(s.entries[FindSlot(s.entries, name)].value, b)
    ensures !Used(DeleteSpec(s, name).0.entries, ignore, b)
  {
    var t := DeleteSpec(s, name).0;
    DeleteOutcomes(s, name, t, Pass);
    var i := FindSlot(s.entries, name);
    var e := s.entries[i].value;
    forall k | 0 <= k < MaxFiles && t.entries[k].Some?
      ensures !Occupies(t.entries[k].value, b)
    {
      DisjointMeansNoSharedBlock(e, s.entries[k].value);
    }
  }

  /** Under the invariant, after a file is deleted, a write to any file whose
      contents need no more blocks than the deleted file held never fails for
      want of contiguous space: the freed extent is such a run. */
  lemma DeleteThenWriteFits(s: State, name: seq<Byte>, other: seq<Byte>, contents: seq<Byte>)
    requires Invariant(s) && DeleteSpec(s, name).1 == Pass
    requires BlocksNeeded(|contents|) <= BlocksNeeded(s.entries[FindSlot(s.entries, name)].value.size)
    ensures var t := DeleteSpec(s, name).0;
            WriteSpec(t, other, contents).1 != Fail(NoContiguousSpace)
  {
    var t := DeleteSpec(s, name).0;
    var e := s.entries[FindSlot(s.entries, name)].value;
    var j, n := FindSlot(t.entries, other), BlocksNeeded(|contents|);
    var (u, o) := WriteSpec(t, other, contents);
    WriteFailures(t, other, contents, u, o);
    if j != -1 && 0 < n {
      forall b | e.firstBlock <= b < e.firstBlock + n
        ensures !UsedMap(t.entries, j)[b]
      {
        DeleteFreesBlocks(s, name, j, b);
      }
      assert IsFreeRun(UsedMap(t.entries, j), e.firstBlock, n);
    }
  }

  /** The blocks a successful write gives a file were free before it. */
  lemma WriteUsesFreeBlocks(s: State, name: seq<Byte>, contents: seq<Byte>, b: int)
    requires WellFormed(s) && WriteSpec(s, name, contents).1 == Pass
    requires var t := WriteSpec(s, name, contents).0;
             Occupies(t.entries[FindSlot(s.entries, name)].value, b)
    ensures !Used(s.entries, FindSlot(s.entries, name), b)
  {
    var t := WriteSpec(s, name, contents).0;
    WriteSuccess(s, name, contents, t);
    var i := FindSlot(s.entries, name);
    var e := t.entries[i].value;
    assert IsFreeRun(UsedMap(s.entries, i), e.firstBlock, BlocksNeeded(e.size));
    assert !UsedMap(s.entries, i)[b];
  }

  // ------------------------------------------------------- sequences of calls

  /** A call that changes the engine's state. */
  datatype Op = Create(name: seq<Byte>) | Delete(name: seq<Byte>) | Write(name: seq<Byte>, contents: seq<Byte>)

  function Apply(s: State, op: Op): (t: State)
    requires WellFormed(s)
    ensures WellFormed(t)
  {
    match op
    case Create(name) => CreateSpec(s, name).0
    case Delete(name) => DeleteSpec(s, name).0
    case Write(name, contents) => WriteSpec(s, name, contents).0
  }

  /** The state after the calls `ops`, in order, each one's failure included. */
  function Run(s: State, ops: seq<Op>): (t: State)
    requires WellFormed(s)
    ensures WellFormed(t)
    decreases |ops|
  {
    if ops == [] then s else Run(Apply(s, ops[0]), ops[1..])
  }

  /** The engine's invariant: the directory is consistent and block 0 holds it. */
  predicate Invariant(s: State)
  {
    WellFormed(s) && Consistent(s.entries) && Persisted(s)
  }

  lemma FormatInvariant()
    ensures Invariant(FormatState())
  {
    FormatEmpty();
    FormatConsistent();
  }

  /** Every call, successful or not, keeps the invariant. */
  lemma ApplyPreservesInvariant(s: State, op: Op)
    requires Invariant(s)
    ensures Invariant(Apply(s, op))
  {
    match op
    case Create(name) =>
      var (t, o) := CreateSpec(s, name);
      CreateOutcomes(s, name, t, o);
      CreatePreservesConsistency(s, name);
    case Delete(name) =>
      var (t, o) := DeleteSpec(s, name);
      DeleteOutcomes(s, name, t, o);
      DeletePreservesConsistency(s, name);
    case Write(name, contents) =>
      var (t, o) := WriteSpec(s, name, contents);
      WriteFailures(s, name, contents, t, o);
      if o == Pass {
        WriteSuccess(s, name, contents, t);
      }
      WritePreservesConsistency(s, name, contents);
  }

  /** Any sequence of calls from a state satisfying the invariant ends in one. */
  lemma {:induction false} RunPreservesInvariant(s: State, ops: seq<Op>)
    requires Invariant(s)
    ensures Invariant(Run(s, ops))
    decreases |ops|
  {
    if ops != [] {
      ApplyPreservesInvariant(s, ops[0]);
      RunPreservesInvariant(Apply(s, ops[0]), ops[1..]);
    }
  }

  /** Every live name survives a store and a load. */
  predicate StorableNames(entries: seq<Option<Entry>>)
  {
    forall k :: 0 <= k < |entries| && entries[k].Some? ==> StorableName(entries[k].value.name)
  }

  /** Every file the calls create has a storable name. */
  predicate CreatesStorable(ops: seq<Op>)
  {
    forall k :: 0 <= k < |ops| && ops[k].Create? ==> StorableName(ops[k].name)
  }

  /** A call keeps every live name storable, provided a create is given a
      storable name. */
  lemma ApplyKeepsStorable(s: State, op: Op)
    requires WellFormed(s) && StorableNames(s.entries)
    requires op.Create? ==> StorableName(op.name)
    ensures StorableNames(Apply(s, op).entries)
  {
    match op
    case Create(name) =>
      var (t, o) := CreateSpec(s, name);
      CreateOutcomes(s, name, t, o);
    case Delete(name) =>
      var (t, o) := DeleteSpec(s, name);
      DeleteOutcomes(s, name, t, o);
    case Write(name, contents) =>
      var (t, o) := WriteSpec(s, name, contents);
      WriteFailures(s, name, contents, t, o);
      if o == Pass {
        WriteSuccess(s, name, contents, t);
      }
  }

  /** After any sequence of calls that creates only storable names, reopening
      the disk gives back the engine's state: the directory survives a restart. */
  lemma {:induction false} RunSurvivesRestart(s: State, ops: seq<Op>)
    requires Invariant(s) && StorableNames(s.entries) && CreatesStorable(ops)
    ensures Invariant(Run(s, ops)) && MountState(Run(s, ops).disk) == Run(s, ops)
    decreases |ops|
  {
    if ops == [] {
      PersistedReloads(s);
    } else {
      ApplyPreservesInvariant(s, ops[0]);
      ApplyKeepsStorable(s, ops[0]);
      assert CreatesStorable(ops[1..]) by {
        forall k | 0 <= k < |ops| - 1 && ops[1..][k].Create? ensures StorableName(ops[1..][k].name) {
          assert ops[1..][k] == ops[k + 1];
        }
      }
      RunSurvivesRestart(Apply(s, ops[0]), ops[1..]);
    }
  }

  /** From a freshly created disk, any such sequence of calls leaves a disk
      that reopens to the same state. */
  lemma FormatRunSurvivesRestart(ops: seq<Op>)
    requires CreatesStorable(ops)
    ensures MountState(Run(FormatState(), ops).disk) == Run(FormatState(), ops)
  {
    FormatInvariant();
    FormatEmpty();
    RunSurvivesRestart(FormatState(), ops);
  }
}
