/** Lookups in the directory slots: by name, the first free slot, and the
    list of names. */
module Directory {
  import opened Layout

  /** The slot holds a live entry called `name`. */
  predicate Named(slot: Option<Entry>, name: seq<Byte>)
  {
    slot.Some? && slot.value.name == name
  }

  /** The lowest slot at or after `from` holding `name`, or -1. */
  function FindSlotFrom(slots: seq<Option<Entry>>, name: seq<Byte>, from: nat): (i: int)
    requires from <= |slots|
    ensures i == -1 || from <= i < |slots|
    ensures i == -1 ==> forall k :: from <= k < |slots| ==> !Named(slots[k], name)
    ensures i != -1 ==> Named(slots[i], name) && forall k :: from <= k < i ==> !Named(slots[k], name)
    decreases |slots| - from
  {
    if from == |slots| then -1
    else if Named(slots[from], name) then from
    else FindSlotFrom(slots, name, from + 1)
  }

  /** The lowest slot holding `name`, or -1 when no live entry has it. */
  function FindSlot(slots: seq<Option<Entry>>, name: seq<Byte>): (i: int)
    ensures -1 <= i < |slots|
    ensures i == -1 <==> forall k :: 0 <= k < |slots| ==> !Named(slots[k], name)
    ensures i != -1 ==> Named(slots[i], name) && forall k :: 0 <= k < i ==> !Named(slots[k], name)
  {
    FindSlotFrom(slots, name, 0)
  }

  /** The lowest empty slot at or after `from`, or -1. */
  function FreeSlotFrom(slots: seq<Option<Entry>>, from: nat): (i: int)
    requires from <= |slots|
    ensures i == -1 || from <= i < |slots|
    ensures i == -1 ==> forall k :: from <= k < |slots| ==> slots[k].Some?
    ensures i != -1 ==> slots[i].None? && forall k :: from <= k < i ==> slots[k].Some?
    decreases |slots| - from
  {
    if from == |slots| then -1
    else if slots[from].None? then from
    else FreeSlotFrom(slots, from + 1)
  }

  /** The lowest empty slot, or -1 when every slot is in use. */
  function FreeSlot(slots: seq<Option<Entry>>): (i: int)
    ensures -1 <= i < |slots|
    ensures i == -1 <==> forall k :: 0 <= k < |slots| ==> slots[k].Some?
    ensures i != -1 ==> slots[i].None? && forall k :: 0 <= k < i ==> slots[k].Some?
  {
    FreeSlotFrom(slots, 0)
  }

  /** The names of the live entries, in slot order. */
  function Names(slots: seq<Option<Entry>>): (names: seq<seq<Byte>>)
    ensures |names| <= |slots|
    ensures forall n :: n in names <==> exists k :: 0 <= k < |slots| && Named(slots[k], n)
  {
    if slots == [] then []
    else
      var init := Names(slots[..|slots| - 1]);
      var last := slots[|slots| - 1];
      assert forall k :: 0 <= k < |slots| - 1 ==> slots[..|slots| - 1][k] == slots[k];
      if last.Some? then init + [last.value.name] else init
  }

  /** Renaming nothing: slots that hold the same names are searched alike. */
  lemma FindSlotSameNames(a: seq<Option<Entry>>, b: seq<Option<Entry>>, name: seq<Byte>)
    requires |a| == |b|
    requires forall k :: 0 <= k < |a| ==> (Named(a[k], name) <==> Named(b[k], name))
    ensures FindSlot(a, name) == FindSlot(b, name)
  {
    var i, j := FindSlot(a, name), FindSlot(b, name);
    assert i != -1 ==> Named(b[i], name);
    assert j != -1 ==> Named(a[j], name);
  }
}
