/**
 The S3 boot script fragment of AcpiPlatformDxe/BootScript.c: WritePointer
 commands are condensed into a record while the linker/loader script runs, and
 the record is later turned into boot script opcodes that repeat the writes at
 S3 resume.
 */
module BootScript {
  import opened Words
  import opened Bytes

  /** CONDENSED_WRITE_POINTER: the fw_cfg select, skip and write of one command. */
  datatype Condensed = Condensed(item: u16, size: u8, offset: u32, value: u64) {
    /** The bytes that reach the fw_cfg item. */
    function Data(): (d: seq<byte>)
      ensures |d| == size
    {
      ToLE(value, size)
    }

    ghost predicate FitsIn(items: Items) {
      item in items && offset + size <= |items[item]|
    }
  }

  /** The contents of the fw_cfg items, by selector key. */
  type Items = map<u16, seq<byte>>

  /** A fw_cfg write; the device refuses one that leaves the item. */
  function WriteItem(items: Items, item: u16, offset: nat, data: seq<byte>): (r: Items)
    ensures r.Keys == items.Keys
    ensures forall k :: k in items ==> |r[k]| == |items[k]|
  {
    if item in items && offset + |data| <= |items[item]|
    then items[item := Splice(items[item], offset, data)]
    else items
  }

  /** The writes ws carried out in order, each in one select-skip-write. */
  function WriteAll(items: Items, ws: seq<Condensed>): (r: Items)
    ensures r.Keys == items.Keys
    ensures forall k :: k in items ==> |r[k]| == |items[k]|
  {
    if ws == [] then items
    else
      var w := ws[|ws| - 1];
      WriteItem(WriteAll(items, ws[..|ws| - 1]), w.item, w.offset, w.Data())
  }

  /** The range of w in the fw_cfg item holds the value of w, least significant byte first. */
  ghost predicate Reads(items: Items, w: Condensed) {
    w.FitsIn(items) && FromLE(items[w.item][w.offset..w.offset + w.size]) == w.value
  }

  /** The writes have no byte in common. */
  predicate Disjoint(w: Condensed, x: Condensed) {
    w.item != x.item || w.offset + w.size <= x.offset || x.offset + x.size <= w.offset
  }

  /**
   Every write that finds its range in the items, and whose value has room in
   it, can be read back, unless a later write goes into the range.
   */
  ghost predicate ReadBack(ws: seq<Condensed>, before: Items, after: Items) {
    forall j :: 0 <= j < |ws| && ws[j].FitsIn(before) && ws[j].value < Pow256(ws[j].size)
                && (forall m :: j < m < |ws| ==> Disjoint(ws[j], ws[m])) ==>
                Reads(after, ws[j])
  }

  lemma WriteReads(items: Items, w: Condensed)
    requires w.FitsIn(items) && w.value < Pow256(w.size)
    ensures Reads(WriteItem(items, w.item, w.offset, w.Data()), w)
  {
    SpliceRead(items[w.item], w.offset, w.Data());
    StoreLoad(w.value, w.size);
  }

  /** A value stays in its range until a later write into the range. */
  lemma {:induction false} LastWriteReads(items: Items, ws: seq<Condensed>, j: nat)
    requires j < |ws| && ws[j].FitsIn(items) && ws[j].value < Pow256(ws[j].size)
    requires forall m :: j < m < |ws| ==> Disjoint(ws[j], ws[m])
    ensures Reads(WriteAll(items, ws), ws[j])
  {
    var front, last := ws[..|ws| - 1], ws[|ws| - 1];
    var before := WriteAll(items, front);
    if j == |ws| - 1 {
      WriteReads(before, last);
    } else {
      var w := ws[j];
      assert front[j] == w;
      LastWriteReads(items, front, j);
      if last.item == w.item && last.FitsIn(before) {
        SpliceElsewhere(before[w.item], last.offset, last.Data(), w.offset, w.offset + w.size);
      }
    }
  }

  lemma WritesReadBack(items: Items, ws: seq<Condensed>)
    ensures ReadBack(ws, items, WriteAll(items, ws))
  {
    forall j | 0 <= j < |ws| && ws[j].FitsIn(items) && ws[j].value < Pow256(ws[j].size)
               && forall m :: j < m < |ws| ==> Disjoint(ws[j], ws[m])
      ensures Reads(WriteAll(items, ws), ws[j])
    {
      LastWriteReads(items, ws, j);
    }
  }

  /**
   The opcodes as executed at S3 resume. SkipBytes selects an item and moves to
   an offset in it; WriteBytes restores the bytes that the scratch buffer held
   when the opcode was saved, and writes them at the current position.
   */
  datatype Opcode = SkipBytes(item: u16, count: u32) | WriteBytes(data: seq<byte>)

  /** The fw_cfg device: its items, and the selected item and offset. */
  datatype Device = Device(items: Items, item: u16, offset: nat) {
    function Step(op: Opcode): Device {
      match op
      case SkipBytes(i, n) => Device(items, i, n)
      case WriteBytes(data) => Device(WriteItem(items, item, offset, data), item, offset + |data|)
    }

    function Execute(ops: seq<Opcode>): Device {
      if ops == [] then this else Execute(ops[..|ops| - 1]).Step(ops[|ops| - 1])
    }
  }

  /** The same items, with the same sizes; what they hold may differ. */
  ghost predicate SameSizes(a: Items, b: Items) {
    a.Keys == b.Keys && forall k :: k in a ==> |a[k]| == |b[k]|
  }

  lemma {:induction false} ExecuteKeepsSizes(dev: Device, ops: seq<Opcode>)
    ensures SameSizes(dev.items, dev.Execute(ops).items)
  {
    if ops != [] {
      ExecuteKeepsSizes(dev, ops[..|ops| - 1]);
    }
  }

  lemma {:induction false} ExecuteConcat(dev: Device, a: seq<Opcode>, b: seq<Opcode>)
    ensures dev.Execute(a + b) == dev.Execute(a).Execute(b)
  {
    if b == [] {
      assert a + b == a;
    } else {
      assert (a + b)[..|a + b| - 1] == a + b[..|b| - 1];
      ExecuteConcat(dev, a, b[..|b| - 1]);
    }
  }

  function Opcodes(ws: seq<Condensed>): seq<Opcode> {
    if ws == [] then []
    else
      var w := ws[|ws| - 1];
      Opcodes(ws[..|ws| - 1]) + [SkipBytes(w.item, w.offset), WriteBytes(w.Data())]
  }

  /** The opcodes of one entry more, which are followed by those of the rest. */
  lemma OpcodesNext(ws: seq<Condensed>, n: nat)
    requires n < |ws|
    ensures Opcodes(ws[..n + 1]) == Opcodes(ws[..n]) + [SkipBytes(ws[n].item, ws[n].offset), WriteBytes(ws[n].Data())]
    ensures Opcodes(ws[..n + 1]) <= Opcodes(ws)
  {
    assert ws[..n + 1][..n] == ws[..n];
    OpcodesPrefix(ws, n + 1);
  }

  lemma {:induction false} OpcodesPrefix(ws: seq<Condensed>, n: nat)
    requires n <= |ws|
    ensures Opcodes(ws[..n]) <= Opcodes(ws)
  {
    if n < |ws| {
      OpcodesPrefix(ws[..|ws| - 1], n);
      assert ws[..|ws| - 1][..n] == ws[..n];
    } else {
      assert ws[..n] == ws;
    }
  }

  /** Replaying the record has the effect of the writes that were recorded, whatever the device held. */
  lemma {:induction false} ReplayRepeatsWrites(dev: Device, ws: seq<Condensed>)
    ensures dev.Execute(Opcodes(ws)).items == WriteAll(dev.items, ws)
  {
    if ws != [] {
      var w := ws[|ws| - 1];
      var front := Opcodes(ws[..|ws| - 1]);
      var skip, write := SkipBytes(w.item, w.offset), WriteBytes(w.Data());
      ReplayRepeatsWrites(dev, ws[..|ws| - 1]);
      assert Opcodes(ws)[..|Opcodes(ws)| - 1] == front + [skip];
      assert (front + [skip])[..|front|] == front;
      assert dev.Execute(front + [skip]) == dev.Execute(front).Step(skip);
      assert dev.Execute(Opcodes(ws)) == dev.Execute(front + [skip]).Step(write);
    }
  }

  /** So the replay leaves each value in its range, unless a later entry writes into the range. */
  lemma ReplayReads(dev: Device, ws: seq<Condensed>)
    ensures ReadBack(ws, dev.items, dev.Execute(Opcodes(ws)).items)
  {
    ReplayRepeatsWrites(dev, ws);
    WritesReadBack(dev.items, ws);
  }

  /** A short field is the start of a long one, so a scratch buffer of 8 bytes serves every size. */
  lemma {:induction false} ToLEPrefix(v: nat, k: nat, n: nat)
    requires k <= n
    ensures ToLE(v, n)[..k] == ToLE(v, k)
  {
    if k > 0 {
      ToLEPrefix(v / 256, k - 1, n - 1);
      assert ToLE(v, n)[..k] == [v % 256] + ToLE(v / 256, n - 1)[..k - 1];
    }
  }

  /** S3_CONTEXT: an array of room for the record and the number of entries used. */
  class S3Context {
    const writePointers: array<Condensed>
    var used: nat

    ghost predicate Valid()
      reads this
    {
      used <= writePointers.Length
    }

    function Entries(): seq<Condensed>
      requires Valid()
      reads this, writePointers
    {
      writePointers[..used]
    }

    constructor (writePointerCount: nat)
      requires writePointerCount > 0
      ensures Valid() && Entries() == []
      ensures writePointers.Length == writePointerCount && fresh(writePointers)
    {
      writePointers := new Condensed[writePointerCount];
      used := 0;
    }

    /** SaveCondensedWritePointerToS3Context; false stands for EFI_OUT_OF_RESOURCES. */
    method Save(item: u16, size: u8, offset: u32, value: u64) returns (ok: bool)
      requires Valid()
      modifies this, writePointers
      ensures Valid()
      ensures ok <==> old(used) < writePointers.Length
      ensures Entries() == if ok then old(Entries()) + [Condensed(item, size, offset, value)] else old(Entries())
    {
      if used == writePointers.Length {
        return false;
      }
      writePointers[used] := Condensed(item, size, offset, value);
      used := used + 1;
      return true;
    }

    /**
     The loop of AppendFwCfgBootScript: one scratch buffer is filled again for every
     entry, and each opcode keeps the bytes that were in it when it was saved.
     Saving an opcode may fail, unless the service is reliable, which ends the loop
     with only some of them saved.
     */
    method SaveOpcodes(scratch: array<byte>, reliable: bool) returns (ok: bool, script: seq<Opcode>)
      requires Valid() && scratch.Length == 8
      requires forall w :: w in Entries() ==> w.size <= 8
      modifies scratch
      ensures ok ==> script == Opcodes(Entries())
      ensures ok ==> forall dev: Device :: dev.Execute(script).items == WriteAll(dev.items, Entries())
      ensures ok ==> forall dev: Device :: ReadBack(Entries(), dev.items, dev.Execute(script).items)
      ensures !ok ==> script < Opcodes(Entries()) && !reliable
    {
      script := [];
      for index := 0 to used
        invariant script == Opcodes(Entries()[..index])
      {
        var condensed := writePointers[index];
        assert condensed in Entries();
        OpcodesNext(Entries(), index);
        ok := *;
        if !ok && !reliable {
          return;
        }
        script := script + [SkipBytes(condensed.item, condensed.offset)];
        var value := ToLE(condensed.value, 8);
        forall i | 0 <= i < 8 {
          scratch[i] := value[i];
        }
        assert scratch[..] == value;
        ToLEPrefix(condensed.value, condensed.size, 8);
        ok := *;
        if !ok && !reliable {
          return;
        }
        script := script + [WriteBytes(scratch[..condensed.size])];
      }
      ok := true;
      assert Entries()[..used] == Entries();
      forall dev: Device
        ensures dev.Execute(script).items == WriteAll(dev.items, Entries())
        ensures ReadBack(Entries(), dev.items, dev.Execute(script).items)
      {
        ReplayRepeatsWrites(dev, Entries());
        ReplayReads(dev, Entries());
      }
    }
  }
}
