/** The on-disk directory format: MaxFiles records of RecordSize bytes at the
    start of block 0. A record is the name, zero-padded to NameLength bytes,
    then the size and the first block, each a big-endian 16-bit two's
    complement value (what DataOutput.writeShort writes). An empty slot is
    stored as an all-zero name, size 0 and first block -1. */
module Codec {
  import opened Layout

  /** Big-endian bytes of the 16-bit pattern of `v`. */
  function EncodeShort(v: Short): (bytes: seq<Byte>)
    ensures |bytes| == 2
    ensures DecodeShort(bytes[0], bytes[1]) == v
  {
    var u := v % 0x1_0000;  // Euclidean remainder: the unsigned 16-bit pattern
    [u / 0x100, u % 0x100]
  }

  /** The value DataInput.readShort yields for the bytes `hi`, `lo`. */
  function DecodeShort(hi: Byte, lo: Byte): Short
  {
    var u := hi * 0x100 + lo;
    if u < 0x8000 then u else u - 0x1_0000
  }

  /** Every pair of bytes is the encoding of the value it decodes to. */
  lemma ShortBytesRoundTrip(hi: Byte, lo: Byte)
    ensures EncodeShort(DecodeShort(hi, lo)) == [hi, lo]
  {
    var u := hi * 0x100 + lo;
    assert DecodeShort(hi, lo) % 0x1_0000 == u;
  }

  /** The name field: the name cut to NameLength bytes, then zeros up to NameLength. */
  function EncodeName(name: seq<Byte>): (field: seq<Byte>)
    ensures |field| == NameLength
    ensures |name| <= NameLength ==> field == name + Zeros(NameLength - |name|)
    ensures |name| > NameLength ==> field == name[..NameLength]
  {
    var len := if |name| < NameLength then |name| else NameLength;
    name[..len] + Zeros(NameLength - len)
  }

  /** Drops the leading bytes <= 0x20, as String.trim does with leading characters. */
  function TrimLeft(s: seq<Byte>): (r: seq<Byte>)
    ensures |r| <= |s|
  {
    if s != [] && s[0] <= 0x20 then TrimLeft(s[1..]) else s
  }

  /** TrimLeft keeps a suffix, removes only blanks, and stops at a non-blank byte. */
  lemma {:induction false} TrimLeftSuffix(s: seq<Byte>)
    ensures var r := TrimLeft(s);
            r == s[|s| - |r|..] &&
            (r != [] ==> r[0] > 0x20) &&
            forall k :: 0 <= k < |s| - |r| ==> s[k] <= 0x20
  {
    if s != [] && s[0] <= 0x20 {
      TrimLeftSuffix(s[1..]);
    }
  }

  /** Drops the trailing bytes <= 0x20, as String.trim does with trailing characters. */
  function TrimRight(s: seq<Byte>): (r: seq<Byte>)
    ensures |r| <= |s|
  {
    if s != [] && s[|s| - 1] <= 0x20 then TrimRight(s[..|s| - 1]) else s
  }

  /** TrimRight keeps a prefix, removes only blanks, and stops at a non-blank byte. */
  lemma {:induction false} TrimRightPrefix(s: seq<Byte>)
    ensures var r := TrimRight(s);
            r == s[..|r|] &&
            (r != [] ==> r[|r| - 1] > 0x20) &&
            forall k :: |r| <= k < |s| ==> s[k] <= 0x20
  {
    if s != [] && s[|s| - 1] <= 0x20 {
      TrimRightPrefix(s[..|s| - 1]);
    }
  }

  /** String.trim on a name field. */
  function Trim(s: seq<Byte>): seq<Byte>
  {
    TrimRight(TrimLeft(s))
  }

  /** A name that survives a store and a load: 1 to NameLength bytes, and
      neither its first nor its last byte is one that Trim removes. */
  predicate StorableName(name: seq<Byte>)
  {
    1 <= |name| <= NameLength && name[0] > 0x20 && name[|name| - 1] > 0x20
  }

  function EncodeRecord(slot: Option<Entry>): (record: seq<Byte>)
    ensures |record| == RecordSize
    ensures slot.None? ==> record == Zeros(NameLength) + [0, 0, 0xFF, 0xFF]
  {
    match slot
    case None => Zeros(NameLength) + EncodeShort(0) + EncodeShort(NoBlock)
    case Some(e) => EncodeName(e.name) + EncodeShort(e.size) + EncodeShort(e.firstBlock)
  }

  /** A record whose trimmed name field is empty is a free slot, whatever its other bytes. */
  function DecodeRecord(record: seq<Byte>): Option<Entry>
    requires |record| == RecordSize
  {
    var name := Trim(record[..NameLength]);
    if name == [] then None
    else Some(Entry(name, DecodeShort(record[11], record[12]), DecodeShort(record[13], record[14])))
  }

  /** The directory bytes of `slots`, one record per slot in slot order. */
  function EncodeDirectory(slots: seq<Option<Entry>>): (bytes: seq<Byte>)
    ensures |bytes| == RecordSize * |slots|
  {
    if slots == [] then []
    else EncodeDirectory(slots[..|slots| - 1]) + EncodeRecord(slots[|slots| - 1])
  }

  /** Record k of the directory bytes is the record of slot k. */
  lemma {:induction false} EncodeDirectoryRecord(slots: seq<Option<Entry>>, k: int)
    requires 0 <= k < |slots|
    ensures EncodeDirectory(slots)[RecordSize * k .. RecordSize * k + RecordSize] == EncodeRecord(slots[k])
  {
    var prefix := slots[..|slots| - 1];
    var init, last := EncodeDirectory(prefix), EncodeRecord(slots[|slots| - 1]);
    assert EncodeDirectory(slots) == init + last;
    if k < |slots| - 1 {
      EncodeDirectoryRecord(prefix, k);
      assert prefix[k] == slots[k];
      SliceOfConcat(init, last, RecordSize * k, RecordSize * k + RecordSize);
    } else {
      SliceOfConcatRight(init, last);
    }
  }

  /** The directory bytes of the first i + 1 slots extend those of the first i. */
  lemma EncodeDirectorySnoc(slots: seq<Option<Entry>>, i: int)
    requires 0 <= i < |slots|
    ensures EncodeDirectory(slots[..i + 1]) == EncodeDirectory(slots[..i]) + EncodeRecord(slots[i])
  {
    assert slots[..i + 1][..i] == slots[..i];
  }

  lemma SliceOfConcat(a: seq<Byte>, b: seq<Byte>, lo: int, hi: int)
    requires 0 <= lo <= hi <= |a|
    ensures (a + b)[lo..hi] == a[lo..hi]
  {
  }

  lemma SliceOfConcatRight(a: seq<Byte>, b: seq<Byte>)
    ensures (a + b)[|a|..|a| + |b|] == b
  {
  }

  /** The record of slot `k` within the directory bytes. */
  function RecordAt(bytes: seq<Byte>, k: nat): (record: seq<Byte>)
    requires RecordSize * k + RecordSize <= |bytes|
    ensures |record| == RecordSize
  {
    bytes[RecordSize * k .. RecordSize * k + RecordSize]
  }

  /** The slot stored in the record of slot `k`, read field by field. */
  lemma DecodeRecordAt(bytes: seq<Byte>, k: nat)
    requires RecordSize * k + RecordSize <= |bytes|
    ensures var pos := RecordSize * k;
            var name := Trim(bytes[pos .. pos + NameLength]);
            DecodeRecord(RecordAt(bytes, k)) ==
              if name == [] then None
              else Some(Entry(name, DecodeShort(bytes[pos + 11], bytes[pos + 12]),
                                    DecodeShort(bytes[pos + 13], bytes[pos + 14])))
  {
    var pos := RecordSize * k;
    assert RecordAt(bytes, k)[..NameLength] == bytes[pos .. pos + NameLength];
  }

  /** The first `n` slots stored in the directory bytes. */
  function DecodeSlots(bytes: seq<Byte>, n: nat): (slots: seq<Option<Entry>>)
    requires RecordSize * n <= |bytes|
    ensures |slots| == n
  {
    if n == 0 then [] else DecodeSlots(bytes, n - 1) + [DecodeRecord(RecordAt(bytes, n - 1))]
  }

  /** Slot k of the decoded slots is the decoding of record k. */
  lemma {:induction false} DecodeSlotsAt(bytes: seq<Byte>, n: nat)
    requires RecordSize * n <= |bytes|
    ensures forall k :: 0 <= k < n ==> DecodeSlots(bytes, n)[k] == DecodeRecord(RecordAt(bytes, k))
  {
    if n > 0 {
      DecodeSlotsAt(bytes, n - 1);
      var prev, last := DecodeSlots(bytes, n - 1), DecodeRecord(RecordAt(bytes, n - 1));
      assert DecodeSlots(bytes, n) == prev + [last];
      forall k | 0 <= k < n ensures (prev + [last])[k] == DecodeRecord(RecordAt(bytes, k)) {
        if k < n - 1 {
          assert (prev + [last])[k] == prev[k];
        }
      }
    }
  }

  /** Decoding looks only at the records: bytes past them do not matter. */
  lemma {:induction false} DecodeSlotsPrefix(bytes: seq<Byte>, m: nat, n: nat)
    requires RecordSize * n <= m <= |bytes|
    ensures DecodeSlots(bytes[..m], n) == DecodeSlots(bytes, n)
  {
    if n > 0 {
      DecodeSlotsPrefix(bytes, m, n - 1);
      var cut := bytes[..m];
      assert RecordAt(cut, n - 1) == RecordAt(bytes, n - 1);
      calc {
        DecodeSlots(cut, n);
        DecodeSlots(cut, n - 1) + [DecodeRecord(RecordAt(cut, n - 1))];
        DecodeSlots(bytes, n - 1) + [DecodeRecord(RecordAt(bytes, n - 1))];
        DecodeSlots(bytes, n);
      }
    }
  }

  /** The slots stored in the first DirectorySize bytes of block 0. */
  function DecodeDirectory(bytes: seq<Byte>): (slots: seq<Option<Entry>>)
    requires |bytes| >= DirectorySize
    ensures |slots| == MaxFiles
  {
    DecodeSlots(bytes, MaxFiles)
  }

  lemma {:induction false} TrimRightPadded(name: seq<Byte>, n: nat)
    requires name != [] && name[|name| - 1] > 0x20
    ensures TrimRight(name + Zeros(n)) == name
  {
    if n > 0 {
      assert (name + Zeros(n))[..|name| + n - 1] == name + Zeros(n - 1);
      TrimRightPadded(name, n - 1);
    }
  }

  lemma TrimPadded(name: seq<Byte>, n: nat)
    requires StorableName(name)
    ensures Trim(name + Zeros(n)) == name
  {
    assert TrimLeft(name + Zeros(n)) == name + Zeros(n);
    TrimRightPadded(name, n);
  }

  lemma {:induction false} TrimLeftBlank(s: seq<Byte>)
    requires forall k :: 0 <= k < |s| ==> s[k] <= 0x20
    ensures TrimLeft(s) == []
  {
    if s != [] {
      TrimLeftBlank(s[1..]);
    }
  }

  lemma RecordRoundTrip(slot: Option<Entry>)
    requires slot.Some? ==> StorableName(slot.value.name)
    ensures DecodeRecord(EncodeRecord(slot)) == slot
  {
    var record := EncodeRecord(slot);
    match slot
    case None =>
      TrimLeftBlank(record[..NameLength]);
    case Some(e) =>
      assert record[..NameLength] == e.name + Zeros(NameLength - |e.name|);
      TrimPadded(e.name, NameLength - |e.name|);
      var size, first := EncodeShort(e.size), EncodeShort(e.firstBlock);
      assert record[11..13] == size && record[13..15] == first;
  }

  /** loadMetadata(writeMetadata(entries)) gives back the entries, provided
      every name is storable. */
  lemma {:induction false} DirectoryRoundTrip(slots: seq<Option<Entry>>)
    requires |slots| == MaxFiles
    requires forall k :: 0 <= k < |slots| && slots[k].Some? ==> StorableName(slots[k].value.name)
    ensures DecodeDirectory(EncodeDirectory(slots)) == slots
  {
    var bytes := EncodeDirectory(slots);
    var decoded := DecodeDirectory(bytes);
    DecodeSlotsAt(bytes, MaxFiles);
    forall k | 0 <= k < MaxFiles
      ensures decoded[k] == slots[k]
    {
      EncodeDirectoryRecord(slots, k);
      assert RecordAt(bytes, k) == EncodeRecord(slots[k]);
      RecordRoundTrip(slots[k]);
    }
    assert decoded == slots;
  }

  /** The storability condition is needed: a leading blank is lost on reload. */
  lemma LeadingBlankIsLost()
    ensures DecodeRecord(EncodeRecord(Some(Entry([0x20, 0x61], 0, NoBlock))))
            == Some(Entry([0x61], 0, NoBlock))
  {
    var field := EncodeRecord(Some(Entry([0x20, 0x61], 0, NoBlock)))[..NameLength];
    assert field == [0x20, 0x61] + Zeros(9);
    assert field[1..] == [0x61] + Zeros(9);
    assert TrimLeft(field) == TrimLeft(field[1..]);
    TrimRightPadded([0x61], 9);
  }
}
