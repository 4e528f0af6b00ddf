/**
 QEMU's table linker/loader script (AcpiPlatformDxe/QemuLoader.h) and what each
 of its commands means for the blobs that the firmware has downloaded so far.
 The theorems are about traces: runs of the first pass over any script, with
 any addresses that the page allocator may have picked.
 */
module LinkerScript {
  import opened Words
  import opened Bytes

  /** A fixed-size name field; it is malformed when its last byte is not NUL. */
  datatype FileName = Terminated(id: string) | Unterminated

  datatype Command =
    | Allocate(file: FileName, alignment: u32)
    | AddPointer(pointerFile: FileName, pointeeFile: FileName, pointerOffset: u32, pointerSize: u8)
    | AddChecksum(file: FileName, resultOffset: u32, start: u32, length: u32)
    | WritePointer(pointerFile: FileName, pointeeFile: FileName,
                   pointerOffset: u32, pointeeOffset: u32, pointerSize: u8)
    | Unknown

  /** A downloaded fw_cfg blob: its address, its contents, and whether only table data was seen in it. */
  datatype Blob = Blob(base: nat, bytes: seq<byte>, hostsOnlyTableData: bool) {
    ghost predicate Holds(address: int) {
      base <= address < base + |bytes|
    }
  }

  /** The blobs known so far, by name. */
  type Tracker = map<string, Blob>

  const EFI_PAGE_SIZE := 4096
  const MAX_ADDRESS := MAX_UINT64

  /** The blobs are non-empty, lie below the end of the address space and do not overlap. */
  ghost predicate WellPlaced(t: Tracker) {
    && (forall id {:trigger id in t} :: id in t ==> |t[id].bytes| > 0 && t[id].base + |t[id].bytes| <= MAX_ADDRESS)
    && (forall x, y {:trigger x in t, y in t} :: x in t && y in t && x != y ==> Apart(t[x], t[y]))
  }

  ghost predicate Apart(a: Blob, b: Blob) {
    a.base + |a.bytes| <= b.base || b.base + |b.bytes| <= a.base
  }

  // ----- AddPointer -----

  predicate ValidPointerSize(n: u8) {
    n == 1 || n == 2 || n == 4 || n == 8
  }

  /** The checks of AddPointer and WritePointer, in the order in which the source makes them. */
  datatype Verdict = Malformed | UnknownFile | BadLocation | BadValue | Unrepresentable | Accept(value: nat)

  /** The field named by an AddPointer command exists. */
  predicate FieldExists(t: Tracker, c: Command)
    requires c.AddPointer?
  {
    && c.pointerFile.Terminated? && c.pointerFile.id in t
    && c.pointeeFile.Terminated? && c.pointeeFile.id in t
    && ValidPointerSize(c.pointerSize)
    && c.pointerOffset + c.pointerSize <= |t[c.pointerFile.id].bytes|
  }

  function FieldValue(t: Tracker, c: Command): nat
    requires c.AddPointer? && FieldExists(t, c)
  {
    FromLE(t[c.pointerFile.id].bytes[c.pointerOffset..c.pointerOffset + c.pointerSize])
  }

  /** Whether an address can be stored in a pointer of the given size. */
  predicate Representable(address: nat, size: u8) {
    size < 8 ==> address < Pow256(size)
  }

  function AddPointerVerdict(t: Tracker, c: Command): Verdict
    requires c.AddPointer?
  {
    if c.pointerFile.Unterminated? || c.pointeeFile.Unterminated? then Malformed
    else if c.pointerFile.id !in t || c.pointeeFile.id !in t then UnknownFile
    else if !FieldExists(t, c) then BadLocation
    else
      var pointee := t[c.pointeeFile.id];
      var offset := FieldValue(t, c);
      if offset >= |pointee.bytes| then BadValue
      else if !Representable(offset + pointee.base, c.pointerSize) then Unrepresentable
      else Accept(offset + pointee.base)
  }

  /** The pointer file and the pointee are there, and the field lies in the file. */
  ghost predicate CanPatch(t: Tracker, c: Command)
    requires c.AddPointer?
  {
    && (exists f, p :: c.pointerFile == Terminated(f) && f in t && c.pointeeFile == Terminated(p) && p in t
                       && c.pointerOffset + c.pointerSize <= |t[f].bytes|)
    && c.pointerSize in {1, 2, 4, 8}
  }

  /** A pointer of 8 bytes has room for every address, a shorter one for those of its size. */
  predicate HasRoom(size: u8, address: int) {
    (size == 1 ==> address < 0x100) && (size == 2 ==> address < 0x1_0000) && (size == 4 ==> address < 0x1_0000_0000)
  }

  /**
   Exactly which AddPointers are accepted, and with which address: the field must
   hold an offset inside the pointee, and have room for the address.
   */
  lemma AddPointerAccepted(t: Tracker, c: Command)
    requires c.AddPointer?
    ensures AddPointerVerdict(t, c).Accept? <==>
            && CanPatch(t, c)
            && var offset := FromLE(t[c.pointerFile.id].bytes[c.pointerOffset..c.pointerOffset + c.pointerSize]);
            && var pointee := t[c.pointeeFile.id];
            && offset < |pointee.bytes| && HasRoom(c.pointerSize, offset + pointee.base)
    ensures AddPointerVerdict(t, c).Unrepresentable? <==>
            && CanPatch(t, c)
            && var offset := FromLE(t[c.pointerFile.id].bytes[c.pointerOffset..c.pointerOffset + c.pointerSize]);
            && var pointee := t[c.pointeeFile.id];
            && offset < |pointee.bytes| && !HasRoom(c.pointerSize, offset + pointee.base)
    ensures AddPointerVerdict(t, c).Accept? ==>
              AddPointerVerdict(t, c).value ==
              FromLE(t[c.pointerFile.id].bytes[c.pointerOffset..c.pointerOffset + c.pointerSize])
              + t[c.pointeeFile.id].base
  {
    Pow256Widths();
  }

  function Relocate(t: Tracker, c: Command, value: nat): Tracker
    requires c.AddPointer? && FieldExists(t, c)
  {
    var pointer := t[c.pointerFile.id];
    t[c.pointerFile.id :=
      pointer.(bytes := Splice(pointer.bytes, c.pointerOffset, ToLE(value, c.pointerSize)))]
  }

  /** The field of c exists and holds an address inside the pointee blob. */
  ghost predicate Points(t: Tracker, c: Command) {
    c.AddPointer? && FieldExists(t, c) && t[c.pointeeFile.id].Holds(FieldValue(t, c))
  }

  // ----- AddChecksum -----

  predicate ChecksumRangeExists(t: Tracker, c: Command)
    requires c.AddChecksum?
  {
    && c.file.Terminated? && c.file.id in t
    && c.resultOffset < |t[c.file.id].bytes|
    && c.start + c.length <= |t[c.file.id].bytes|
  }

  function ChecksumRange(t: Tracker, c: Command): seq<byte>
    requires c.AddChecksum? && ChecksumRangeExists(t, c)
  {
    t[c.file.id].bytes[c.start..c.start + c.length]
  }

  function WithChecksum(t: Tracker, c: Command): Tracker
    requires c.AddChecksum? && ChecksumRangeExists(t, c)
  {
    var blob := t[c.file.id];
    t[c.file.id := blob.(bytes := blob.bytes[c.resultOffset := CheckSum8(ChecksumRange(t, c))])]
  }

  // ----- WritePointer -----

  /** sizes gives the length of every file in the fw_cfg directory. */
  function WritePointerVerdict(t: Tracker, sizes: map<string, nat>, c: Command): Verdict
    requires c.WritePointer?
  {
    if c.pointerFile.Unterminated? || c.pointeeFile.Unterminated? then Malformed
    else if c.pointerFile.id !in sizes || c.pointeeFile.id !in t then UnknownFile
    else if !ValidPointerSize(c.pointerSize) || sizes[c.pointerFile.id] < c.pointerSize
            || sizes[c.pointerFile.id] - c.pointerSize < c.pointerOffset then BadLocation
    else
      var pointee := t[c.pointeeFile.id];
      if c.pointeeOffset >= |pointee.bytes| then BadValue
      else if !Representable(c.pointeeOffset + pointee.base, c.pointerSize) then Unrepresentable
      else Accept(c.pointeeOffset + pointee.base)
  }

  /** Exactly which WritePointers are accepted, and with which address. */
  lemma WritePointerAccepted(t: Tracker, sizes: map<string, nat>, c: Command)
    requires c.WritePointer?
    ensures WritePointerVerdict(t, sizes, c).Accept? <==>
            CanTell(t, sizes, c) && HasRoom(c.pointerSize, t[c.pointeeFile.id].base + c.pointeeOffset)
    ensures WritePointerVerdict(t, sizes, c).Unrepresentable? <==>
            CanTell(t, sizes, c) && !HasRoom(c.pointerSize, t[c.pointeeFile.id].base + c.pointeeOffset)
    ensures WritePointerVerdict(t, sizes, c).Accept? ==>
              WritePointerVerdict(t, sizes, c).value == t[c.pointeeFile.id].base + c.pointeeOffset
  {
    Pow256Widths();
  }

  /** The range exists in the fw_cfg file, and the offset lies inside the pointee. */
  ghost predicate CanTell(t: Tracker, sizes: map<string, nat>, c: Command)
    requires c.WritePointer?
  {
    && (exists f, p :: c.pointerFile == Terminated(f) && f in sizes && c.pointeeFile == Terminated(p) && p in t
                       && c.pointerOffset + c.pointerSize <= sizes[f] && c.pointeeOffset < |t[p].bytes|)
    && c.pointerSize in {1, 2, 4, 8}
  }

  // ----- Traces of the first pass -----

  /** The pointees of pointers narrower than 8 bytes, which pass zero keeps out of 64-bit address space. */
  ghost function Restricted(script: seq<Command>): set<string> {
    set c | c in script && c.AddPointer? && c.pointerSize < 8 && c.pointeeFile.Terminated? :: c.pointeeFile.id
  }

  /**
   A blob as Allocate makes it: at a page boundary, as large as its file, and below 4
   GiB if its name was collected.
   */
  ghost predicate NewBlob(restricted: set<string>, sizes: map<string, nat>, id: string, blob: Blob) {
    && id in sizes && |blob.bytes| == sizes[id]
    && blob.base % EFI_PAGE_SIZE == 0 && blob.hostsOnlyTableData
    && (id in restricted ==> blob.base + |blob.bytes| - 1 <= MAX_UINT32)
  }

  /** What a successful command may do to the tracker; only Allocate leaves the outcome open. */
  ghost predicate Step(restricted: set<string>, sizes: map<string, nat>, t: Tracker, c: Command, t': Tracker)
  {
    match c
    case Allocate(file, alignment) =>
      && file.Terminated? && alignment <= EFI_PAGE_SIZE && file.id !in t && file.id in t'
      && t' == t[file.id := t'[file.id]]
      && NewBlob(restricted, sizes, file.id, t'[file.id])
    case AddPointer(_, _, _, _) =>
      && AddPointerVerdict(t, c).Accept?
      && t' == Relocate(t, c, AddPointerVerdict(t, c).value)
    case AddChecksum(_, _, _, _) =>
      ChecksumRangeExists(t, c) && t' == WithChecksum(t, c)
    case WritePointer(_, pointeeFile, _, _, _) =>
      && WritePointerVerdict(t, sizes, c).Accept?
      && t' == t[pointeeFile.id := t[pointeeFile.id].(hostsOnlyTableData := false)]
    case Unknown => t' == t
  }

  /** hist[i] is the tracker before command i; the pass starts with no blobs. */
  ghost predicate Trace(script: seq<Command>, restricted: set<string>, sizes: map<string, nat>, hist: seq<Tracker>) {
    && |hist| == |script| + 1
    && hist[0] == map[]
    && (forall i :: 0 <= i < |hist| ==> WellPlaced(hist[i]))
    && (forall i :: 0 <= i < |script| ==> Step(restricted, sizes, hist[i], script[i], hist[i + 1]))
  }

  lemma ExtendTrace(script: seq<Command>, restricted: set<string>, sizes: map<string, nat>, hist: seq<Tracker>,
                    c: Command, t: Tracker)
    requires Trace(script, restricted, sizes, hist) && WellPlaced(t)
    requires Step(restricted, sizes, hist[|script|], c, t)
    ensures Trace(script + [c], restricted, sizes, hist + [t])
  {
  }

  // ----- Which bytes a command writes -----

  datatype Span = Nowhere | Span(file: string, lo: nat, hi: nat) {
    predicate Overlaps(other: Span) {
      Span? && other.Span? && file == other.file && lo < other.hi && other.lo < hi
    }
  }

  function Written(c: Command): Span {
    match c
    case AddPointer(Terminated(id), _, offset, size) => Span(id, offset, offset + size)
    case AddChecksum(Terminated(id), result, _, _) => Span(id, result, result + 1)
    case _ => Nowhere
  }

  function Checksummed(c: Command): Span
    requires c.AddChecksum?
  {
    if c.file.Terminated? then Span(c.file.id, c.start, c.start + c.length) else Nowhere
  }

  /** No command from index from on writes into the span: a condition on the script alone. */
  ghost predicate Untouched(script: seq<Command>, from: nat, span: Span) {
    forall j :: from <= j < |script| ==> !Written(script[j]).Overlaps(span)
  }

  // ----- Theorems -----

  /** AddPointer turns the offset into an address inside the pointee, and changes no other byte. */
  lemma AddPointerRelocates(t: Tracker, c: Command)
    requires WellPlaced(t) && c.AddPointer? && AddPointerVerdict(t, c).Accept?
    ensures var t' := Relocate(t, c, AddPointerVerdict(t, c).value);
            Points(t', c) && FieldValue(t', c) == FieldValue(t, c) + t[c.pointeeFile.id].base
  {
    var value := AddPointerVerdict(t, c).value;
    var bytes := t[c.pointerFile.id].bytes;
    Pow256Widths();
    StoreLoad(value, c.pointerSize);
    SpliceRead(bytes, c.pointerOffset, ToLE(value, c.pointerSize));
  }

  /** Into which ranges a command writes: an AddPointer into its field, an AddChecksum into its result byte. */
  lemma WritesInto(c: Command, file: string, lo: nat, hi: nat)
    ensures Written(c).Overlaps(Span(file, lo, hi)) <==>
            || (c.AddPointer? && c.pointerFile == Terminated(file)
                && c.pointerOffset < hi && lo < c.pointerOffset + c.pointerSize)
            || (c.AddChecksum? && c.file == Terminated(file) && lo <= c.resultOffset < hi)
  {
  }

  /** A step leaves every byte that it does not declare as written, and no blob moves or changes size. */
  lemma StepFrame(restricted: set<string>, sizes: map<string, nat>, t: Tracker, c: Command, t': Tracker,
                  id: string, lo: nat, hi: nat)
    requires WellPlaced(t) && Step(restricted, sizes, t, c, t')
    requires id in t && lo < hi <= |t[id].bytes|
    requires !Written(c).Overlaps(Span(id, lo, hi))
    ensures id in t' && t'[id].base == t[id].base && |t'[id].bytes| == |t[id].bytes|
    ensures t'[id].bytes[lo..hi] == t[id].bytes[lo..hi]
  {
    if c.AddPointer? && c.pointerFile.id == id {
      var w := ToLE(AddPointerVerdict(t, c).value, c.pointerSize);
      SpliceElsewhere(t[id].bytes, c.pointerOffset, w, lo, hi);
    }
  }

  /** Blobs stay where they are, with their size, to the end of the pass. */
  lemma StepPlaces(restricted: set<string>, sizes: map<string, nat>, t: Tracker, c: Command, t': Tracker, id: string)
    requires WellPlaced(t) && Step(restricted, sizes, t, c, t')
    requires id in t
    ensures id in t' && t'[id].base == t[id].base && |t'[id].bytes| == |t[id].bytes|
  {
  }

  /** Bytes that no later command writes keep their value to the end of the pass. */
  lemma {:induction false} TraceFrame(script: seq<Command>, restricted: set<string>, sizes: map<string, nat>,
                                      hist: seq<Tracker>, i: nat, k: nat, id: string, lo: nat, hi: nat)
    requires Trace(script, restricted, sizes, hist) && i <= k <= |script|
    requires id in hist[i] && lo < hi <= |hist[i][id].bytes|
    requires Untouched(script, i, Span(id, lo, hi))
    ensures id in hist[k] && hist[k][id].base == hist[i][id].base && |hist[k][id].bytes| == |hist[i][id].bytes|
    ensures hist[k][id].bytes[lo..hi] == hist[i][id].bytes[lo..hi]
    decreases k - i
  {
    if i < k {
      StepFrame(restricted, sizes, hist[i], script[i], hist[i + 1], id, lo, hi);
      TraceFrame(script, restricted, sizes, hist, i + 1, k, id, lo, hi);
    }
  }

  lemma {:induction false} TracePlaces(script: seq<Command>, restricted: set<string>, sizes: map<string, nat>,
                                       hist: seq<Tracker>, i: nat, k: nat, id: string)
    requires Trace(script, restricted, sizes, hist) && i <= k <= |script|
    requires id in hist[i]
    ensures id in hist[k] && hist[k][id].base == hist[i][id].base && |hist[k][id].bytes| == |hist[i][id].bytes|
    decreases k - i
  {
    if i < k {
      StepPlaces(restricted, sizes, hist[i], script[i], hist[i + 1], id);
      TracePlaces(script, restricted, sizes, hist, i + 1, k, id);
    }
  }

  /**
   Relocation is sound: when no later command writes into the field of
   an AddPointer, the field ends the pass as an address inside the pointee.
   */
  lemma RelocationSound(script: seq<Command>, restricted: set<string>, sizes: map<string, nat>,
                        hist: seq<Tracker>, i: nat)
    requires Trace(script, restricted, sizes, hist) && i < |script|
    requires script[i].AddPointer? && Untouched(script, i + 1, Written(script[i]))
    ensures Points(hist[|script|], script[i])
  {
    var c := script[i];
    var lo := c.pointerOffset;
    assert Step(restricted, sizes, hist[i], c, hist[i + 1]);
    AddPointerRelocates(hist[i], c);
    TraceFrame(script, restricted, sizes, hist, i + 1, |script|, c.pointerFile.id, lo, lo + c.pointerSize);
    TracePlaces(script, restricted, sizes, hist, i + 1, |script|, c.pointeeFile.id);
  }

  /**
   Command j writes the whole field of the AddPointer i, as a pointer again or
   for the first time, and is the last to touch it.
   */
  ghost predicate LastOnField(script: seq<Command>, i: nat, j: nat) {
    && i <= j < |script| && script[i].AddPointer? && script[j].AddPointer?
    && Written(script[j]) == Written(script[i]) && Untouched(script, j + 1, Written(script[j]))
  }

  /**
   The last pointer written into a field decides: another AddPointer's field is right
   exactly if the pointees agree.
   */
  lemma LastWriterDecides(script: seq<Command>, restricted: set<string>, sizes: map<string, nat>,
                          hist: seq<Tracker>, i: nat, j: nat)
    requires Trace(script, restricted, sizes, hist) && LastOnField(script, i, j)
    ensures Points(hist[|script|], script[i]) <==> script[i].pointeeFile == script[j].pointeeFile
  {
    FieldsStay(script, restricted, sizes, hist, i);
    FieldsStay(script, restricted, sizes, hist, j);
    RelocationSound(script, restricted, sizes, hist, j);
  }

  /** The field of AddPointer i ends as a pointer into the pointee that it names. */
  ghost predicate Aimed(script: seq<Command>, i: nat)
    requires i < |script| && script[i].AddPointer?
  {
    exists j: nat :: LastOnField(script, i, j) && script[j].pointeeFile == script[i].pointeeFile
  }

  /** It ends as a pointer into another blob. */
  ghost predicate Misaimed(script: seq<Command>, i: nat)
    requires i < |script| && script[i].AddPointer?
  {
    exists j: nat :: LastOnField(script, i, j) && script[j].pointeeFile != script[i].pointeeFile
  }

  /** For a field whose last write is a pointer over all of it, the script alone decides. */
  lemma AimDecides(script: seq<Command>, restricted: set<string>, sizes: map<string, nat>, hist: seq<Tracker>, i: nat)
    requires Trace(script, restricted, sizes, hist) && i < |script| && script[i].AddPointer?
    ensures Aimed(script, i) ==> Points(hist[|script|], script[i])
    ensures Misaimed(script, i) ==> !Points(hist[|script|], script[i])
  {
    if j: nat :| LastOnField(script, i, j) && script[j].pointeeFile == script[i].pointeeFile {
      LastWriterDecides(script, restricted, sizes, hist, i, j);
    }
    if j: nat :| LastOnField(script, i, j) && script[j].pointeeFile != script[i].pointeeFile {
      LastWriterDecides(script, restricted, sizes, hist, i, j);
    }
  }

  ghost predicate AllAimed(script: seq<Command>) {
    forall i {:trigger Aimed(script, i)} :: 0 <= i < |script| && script[i].AddPointer? ==> Aimed(script, i)
  }

  ghost predicate SomeMisaimed(script: seq<Command>) {
    exists i :: 0 <= i < |script| && script[i].AddPointer? && Misaimed(script, i)
  }

  /** All the ASSERTs of the second pass hold. */
  ghost predicate AllPoint(script: seq<Command>, t: Tracker) {
    AllPointTo(script, |script|, t)
  }

  /** Those of the first k commands do. */
  ghost predicate AllPointTo(script: seq<Command>, k: nat, t: Tracker)
    requires k <= |script|
  {
    forall i :: 0 <= i < k && script[i].AddPointer? ==> Points(t, script[i])
  }

  lemma AllAimedPoint(script: seq<Command>, restricted: set<string>, sizes: map<string, nat>, hist: seq<Tracker>)
    requires Trace(script, restricted, sizes, hist)
    ensures AllAimed(script) ==> AllPoint(script, hist[|script|])
    ensures SomeMisaimed(script) ==> !AllPoint(script, hist[|script|])
  {
    forall i | 0 <= i < |script| && script[i].AddPointer?
      ensures Aimed(script, i) ==> Points(hist[|script|], script[i])
      ensures Misaimed(script, i) ==> !Points(hist[|script|], script[i])
    {
      AimDecides(script, restricted, sizes, hist, i);
    }
  }

  /** The last write into the field of AddPointer i is a pointer over all of it. */
  ghost predicate Decided(script: seq<Command>, i: nat) {
    exists j: nat :: LastOnField(script, i, j)
  }

  lemma AimedIfPoints(script: seq<Command>, restricted: set<string>, sizes: map<string, nat>, hist: seq<Tracker>,
                      i: nat)
    requires Trace(script, restricted, sizes, hist) && i < |script| && script[i].AddPointer?
    requires Decided(script, i) && Points(hist[|script|], script[i])
    ensures Aimed(script, i)
  {
    var j: nat :| LastOnField(script, i, j);
    LastWriterDecides(script, restricted, sizes, hist, i, j);
  }

  /**
   If every field is last written by a pointer over all of it, the ASSERTs hold
   exactly for a script that aims every field.
   */
  lemma AimExact(script: seq<Command>, restricted: set<string>, sizes: map<string, nat>, hist: seq<Tracker>)
    requires Trace(script, restricted, sizes, hist)
    requires forall i {:trigger Decided(script, i)} :: 0 <= i < |script| && script[i].AddPointer? ==> Decided(script, i)
    ensures AllPoint(script, hist[|script|]) <==> AllAimed(script)
  {
    AllAimedPoint(script, restricted, sizes, hist);
    if AllPoint(script, hist[|script|]) {
      forall i | 0 <= i < |script| && script[i].AddPointer?
        ensures Aimed(script, i)
      {
        assert Decided(script, i);
        AimedIfPoints(script, restricted, sizes, hist, i);
      }
    }
  }

  /** The field itself exists at the end whatever the script goes on to do. */
  lemma FieldsStay(script: seq<Command>, restricted: set<string>, sizes: map<string, nat>,
                   hist: seq<Tracker>, i: nat)
    requires Trace(script, restricted, sizes, hist) && i < |script| && script[i].AddPointer?
    ensures FieldExists(hist[|script|], script[i])
  {
    var c := script[i];
    assert Step(restricted, sizes, hist[i], c, hist[i + 1]);
    TracePlaces(script, restricted, sizes, hist, i, |script|, c.pointerFile.id);
    TracePlaces(script, restricted, sizes, hist, i, |script|, c.pointeeFile.id);
  }

  /** Exactly when the range sums to zero right after its checksum has been stored. */
  lemma ChecksumStored(t: Tracker, c: Command)
    requires c.AddChecksum? && ChecksumRangeExists(t, c)
    ensures var inside := c.start <= c.resultOffset < c.start + c.length;
            Sum8(ChecksumRange(WithChecksum(t, c), c)) == 0 <==>
            if inside then t[c.file.id].bytes[c.resultOffset] == 0 else Sum8(ChecksumRange(t, c)) == 0
  {
    var bytes, r := t[c.file.id].bytes, c.resultOffset;
    var before, after := ChecksumRange(t, c), ChecksumRange(WithChecksum(t, c), c);
    var b := CheckSum8(before);
    if c.start <= r < c.start + c.length {
      var at := r - c.start;
      assert after == before[at := b];
      TotalUpdate(before, at, b);
      assert (b + Total(before)) % 256 == 0 by {
        assert (b + Total(before) % 256) % 256 == 0;
      }
      assert Total(after) == (b + Total(before)) - bytes[r];
    } else {
      assert after == before;
    }
  }

  /**
   A range whose checksum byte lies in it and was zero before its AddChecksum
   sums to zero at the end of the pass, unless a later command writes into it.
   */
  lemma ChecksumSound(script: seq<Command>, restricted: set<string>, sizes: map<string, nat>,
                      hist: seq<Tracker>, i: nat)
    requires Trace(script, restricted, sizes, hist) && i < |script|
    requires script[i].AddChecksum? && Untouched(script, i + 1, Checksummed(script[i]))
    requires script[i].start <= script[i].resultOffset < script[i].start + script[i].length
    ensures ChecksumRangeExists(hist[i], script[i]) && ChecksumRangeExists(hist[|script|], script[i])
    ensures Sum8(ChecksumRange(hist[|script|], script[i])) == 0 <==>
            hist[i][script[i].file.id].bytes[script[i].resultOffset] == 0
  {
    var c := script[i];
    assert Step(restricted, sizes, hist[i], c, hist[i + 1]);
    ChecksumStored(hist[i], c);
    TraceFrame(script, restricted, sizes, hist, i + 1, |script|, c.file.id, c.start, c.start + c.length);
  }

  /** Every blob whose name was collected in pass zero ends below 4 GiB. */
  lemma {:induction false} RestrictedBlobsAreLow(script: seq<Command>, restricted: set<string>,
                                                 sizes: map<string, nat>, hist: seq<Tracker>, k: nat, id: string)
    requires Trace(script, restricted, sizes, hist) && k <= |script|
    requires id in hist[k] && id in restricted
    ensures hist[k][id].base + |hist[k][id].bytes| - 1 <= MAX_UINT32
  {
    if k > 0 {
      assert Step(restricted, sizes, hist[k - 1], script[k - 1], hist[k]);
      if id in hist[k - 1] {
        RestrictedBlobsAreLow(script, restricted, sizes, hist, k - 1, id);
        StepPlaces(restricted, sizes, hist[k - 1], script[k - 1], hist[k], id);
      }
    }
  }

  /**
   Four-byte pointers always fit: wherever the first pass has got to in a
   script, a 4-byte AddPointer of that script is not refused as unrepresentable.
   */
  lemma FourBytePointersFit(script: seq<Command>, k: nat, sizes: map<string, nat>, hist: seq<Tracker>, c: Command)
    requires k <= |script| && Trace(script[..k], Restricted(script), sizes, hist)
    requires c in script && c.AddPointer? && c.pointerSize == 4
    ensures !AddPointerVerdict(hist[k], c).Unrepresentable?
  {
    if c.pointeeFile.Terminated? && c.pointeeFile.id in hist[k] {
      assert c.pointeeFile.id in Restricted(script);
      RestrictedBlobsAreLow(script[..k], Restricted(script), sizes, hist, k, c.pointeeFile.id);
      Pow256Widths();
    }
  }

  /**
   A WritePointer restricts nothing by itself: pass zero does not look at it. But
   a 4-byte one fits as well if an AddPointer made pass zero collect its pointee.
   */
  lemma FourByteWritesFit(script: seq<Command>, k: nat, sizes: map<string, nat>, hist: seq<Tracker>, c: Command)
    requires k <= |script| && Trace(script[..k], Restricted(script), sizes, hist)
    requires c.WritePointer? && c.pointerSize == 4
    requires c.pointeeFile.Terminated? && c.pointeeFile.id in Restricted(script)
    ensures !WritePointerVerdict(hist[k], sizes, c).Unrepresentable?
  {
    if c.pointeeFile.id in hist[k] {
      RestrictedBlobsAreLow(script[..k], Restricted(script), sizes, hist, k, c.pointeeFile.id);
      Pow256Widths();
    }
  }

  /** Memory above 4 GiB at a page boundary that no blob uses. */
  ghost predicate FreeAbove(t: Tracker, base: nat, length: nat) {
    && base > MAX_UINT32 && base % EFI_PAGE_SIZE == 0 && length > 0 && base + length <= MAX_ADDRESS
    && (forall id {:trigger id in t} :: id in t ==> t[id].base + |t[id].bytes| <= base || base + length <= t[id].base)
  }

  /** The step that places the blob id at base. */
  lemma PlaceAt(script: seq<Command>, i: nat, sizes: map<string, nat>, hist: seq<Tracker>, base: nat, bytes: seq<byte>)
    returns (t: Tracker)
    requires i < |script| && Trace(script[..i], Restricted(script), sizes, hist)
    requires script[i].Allocate? && script[i].file.Terminated? && script[i].alignment <= EFI_PAGE_SIZE
    requires script[i].file.id !in hist[i] && script[i].file.id in sizes && |bytes| == sizes[script[i].file.id]
    requires script[i].file.id !in Restricted(script) && FreeAbove(hist[i], base, |bytes|)
    ensures t == hist[i][script[i].file.id := Blob(base, bytes, true)]
    ensures Trace(script[..i + 1], Restricted(script), sizes, hist + [t])
  {
    t := hist[i][script[i].file.id := Blob(base, bytes, true)];
    assert WellPlaced(hist[i]);
    assert script[..i + 1] == script[..i] + [script[i]];
    ExtendTrace(script[..i], Restricted(script), sizes, hist, script[i], t);
  }

  /**
   Exactly when a 4-byte WritePointer cannot come to be refused for its value:
   wherever the first pass gets to an Allocate of the pointee, with memory above
   4 GiB free, the allocator may choose a place that the pointer cannot hold if
   and only if pass zero did not collect the name.
   */
  lemma FourByteWriteFitsIff(script: seq<Command>, i: nat, sizes: map<string, nat>, hist: seq<Tracker>,
                             file: string, id: string, at: u32, offset: u32, base: nat)
    requires i < |script| && Trace(script[..i], Restricted(script), sizes, hist)
    requires script[i].Allocate? && script[i].file == Terminated(id) && script[i].alignment <= EFI_PAGE_SIZE
    requires file in sizes && at + 4 <= sizes[file] && id in sizes && offset < sizes[id]
    requires id !in hist[i] && FreeAbove(hist[i], base, sizes[id])
    ensures var c := WritePointer(Terminated(file), Terminated(id), at, offset, 4);
            id !in Restricted(script) <==>
            exists t :: Trace(script[..i + 1], Restricted(script), sizes, hist + [t])
                        && WritePointerVerdict(t, sizes, c).Unrepresentable?
  {
    var c := WritePointer(Terminated(file), Terminated(id), at, offset, 4);
    Pow256Widths();
    if id !in Restricted(script) {
      var t := PlaceAt(script, i, sizes, hist, base, seq(sizes[id], _ => 0));
      assert t[id].base == base;
      assert WritePointerVerdict(t, sizes, c).Unrepresentable?;
    } else {
      forall t | Trace(script[..i + 1], Restricted(script), sizes, hist + [t])
        ensures !WritePointerVerdict(t, sizes, c).Unrepresentable?
      {
        FourByteWritesFit(script, i + 1, sizes, hist + [t], c);
      }
    }
  }

  /** And what the allocator chose stays: the command gets the same verdict wherever it comes later. */
  lemma WriteVerdictStays(script: seq<Command>, restricted: set<string>, sizes: map<string, nat>, hist: seq<Tracker>,
                          i: nat, k: nat, c: Command)
    requires Trace(script, restricted, sizes, hist) && i <= k <= |script|
    requires c.WritePointer? && c.pointeeFile.Terminated? && c.pointeeFile.id in hist[i]
    ensures WritePointerVerdict(hist[k], sizes, c) == WritePointerVerdict(hist[i], sizes, c)
  {
    TracePlaces(script, restricted, sizes, hist, i, k, c.pointeeFile.id);
  }

  ghost predicate IsWritePointee(script: seq<Command>, id: string) {
    exists c :: c in script && c.WritePointer? && c.pointeeFile == Terminated(id)
  }

  /** After the first pass a blob is marked exactly when QEMU was told its address. */
  lemma {:induction false} MarkedByWritePointer(script: seq<Command>, restricted: set<string>,
                                                sizes: map<string, nat>, hist: seq<Tracker>, id: string)
    requires Trace(script, restricted, sizes, hist)
    requires id in hist[|script|]
    ensures !hist[|script|][id].hostsOnlyTableData <==> IsWritePointee(script, id)
    decreases |script|
  {
    hide WellPlaced, Splice;
    if script != [] {
      var k := |script| - 1;
      var front, last := script[..k], script[k];
      assert script == front + [last];
      assert Step(restricted, sizes, hist[k], last, hist[k + 1]);
      assert Trace(front, restricted, sizes, hist[..k + 1]);
      assert IsWritePointee(script, id) <==>
             IsWritePointee(front, id) || (last.WritePointer? && last.pointeeFile == Terminated(id)) by {
        assert forall c :: c in script <==> c in front || c == last;
      }
      if id in hist[k] {
        MarkedByWritePointer(front, restricted, sizes, hist[..k + 1], id);
      } else {
        NotYetAllocated(front, restricted, sizes, hist[..k + 1], id);
      }
    }
  }

  /** A blob that has not been allocated has not been a pointee either. */
  lemma NotYetAllocated(script: seq<Command>, restricted: set<string>, sizes: map<string, nat>,
                        hist: seq<Tracker>, id: string)
    requires Trace(script, restricted, sizes, hist)
    requires id !in hist[|script|]
    ensures !IsWritePointee(script, id)
  {
    if IsWritePointee(script, id) {
      var c :| c in script && c.WritePointer? && c.pointeeFile == Terminated(id);
      var i :| 0 <= i < |script| && script[i] == c;
      assert Step(restricted, sizes, hist[i], script[i], hist[i + 1]);
      TracePlaces(script, restricted, sizes, hist, i, |script|, id);
    }
  }

  // ----- The condition on later writes is needed -----

  const SIZES: map<string, nat> := map["a" := 8, "b" := 1]
  const ALLOCATE_A := Allocate(Terminated("a"), 1)
  const ALLOCATE_B := Allocate(Terminated("b"), 1)
  const ADD_A := AddPointer(Terminated("a"), Terminated("b"), 0, 8)
  const SUM_A := AddChecksum(Terminated("a"), 0, 0, 8)
  const ZEROS: seq<byte> := [0, 0, 0, 0, 0, 0, 0, 0]
  const PATCHED: seq<byte> := [0, 0x20, 0, 0, 0, 0, 0, 0]
  const BROKEN: seq<byte> := [0xE0, 0x20, 0, 0, 0, 0, 0, 0]

  function BlobsWith(bytes: seq<byte>): (t: Tracker)
    ensures t.Keys == {"a", "b"} && t["a"] == Blob(0x1000, bytes, true) && t["b"] == Blob(0x2000, [0], true)
  {
    map["b" := Blob(0x2000, [0], true), "a" := Blob(0x1000, bytes, true)]
  }

  lemma ExampleBytes()
    ensures FromLE(ZEROS) == 0 && ToLE(0x2000, 8) == PATCHED
    ensures Total(PATCHED) == 0x20 && FromLE(BROKEN) == 0x20E0
  {
    LowBytes(ZEROS);
    LowBytes(PATCHED);
    LowBytes(BROKEN);
    ExampleStore(0x2000);
  }

  lemma ExampleStore(v: nat)
    requires v == 0x2000
    ensures ToLE(v, 8) == PATCHED
  {
    assert v % 256 == 0 && v / 256 == 0x20;
    assert ToLE(v, 8) == [0] + ToLE(0x20, 7);
    assert ToLE(0x20, 7) == [0x20] + ToLE(0, 6);
    ToLEZero(6);
  }

  lemma LowBytes(s: seq<byte>)
    requires |s| == 8 && forall i :: 2 <= i < 8 ==> s[i] == 0
    ensures var lo: int, hi: int := s[0], s[1]; FromLE(s) == lo + 256 * hi && Total(s) == lo + hi
  {
    var z := s[1..][1..];
    assert forall i :: 0 <= i < |z| ==> z[i] == s[i + 2];
    AllZero(z);
  }

  lemma {:induction false} AllZero(s: seq<byte>)
    requires forall i :: 0 <= i < |s| ==> s[i] == 0
    ensures FromLE(s) == 0 && Total(s) == 0
  {
    if s != [] {
      AllZero(s[1..]);
    }
  }

  /** Storing the bytes p in the blob of file a. */
  lemma ExampleUpdate(z: seq<byte>, p: seq<byte>)
    requires |z| == 8 && |p| == 8
    ensures WellPlaced(BlobsWith(z))
    ensures BlobsWith(z)["a" := BlobsWith(z)["a"].(bytes := p)] == BlobsWith(p)
  {
  }

  lemma ExampleAdd(z: seq<byte>, p: seq<byte>)
    requires |z| == 8 && FromLE(z) == 0 && p == ToLE(0x2000, 8)
    ensures Step({}, SIZES, BlobsWith(z), ADD_A, BlobsWith(p))
  {
    hide WellPlaced, FromLE, ToLE, Pow256, BlobsWith, AddPointerVerdict, Relocate;
    ExampleVerdict(BlobsWith(z), z);
    ExampleUpdate(z, p);
    ExampleRelocated(BlobsWith(z), z, p);
  }

  lemma ExampleVerdict(t: Tracker, z: seq<byte>)
    requires |z| == 8 && FromLE(z) == 0
    requires "a" in t && "b" in t && t["a"].bytes == z && t["b"] == Blob(0x2000, [0], true)
    ensures AddPointerVerdict(t, ADD_A) == Accept(0x2000)
  {
    assert t["a"].bytes[0..8] == z;
  }

  lemma ExampleRelocated(t: Tracker, z: seq<byte>, p: seq<byte>)
    requires |z| == 8 && p == ToLE(0x2000, 8)
    requires "a" in t && "b" in t && t["a"].bytes == z
    ensures FieldExists(t, ADD_A) && Relocate(t, ADD_A, 0x2000) == t["a" := t["a"].(bytes := p)]
  {
    hide ToLE;
    assert Splice(z, 0, p) == p;
  }

  lemma ExampleSum(p: seq<byte>, b: byte)
    requires |p| == 8 && CheckSum8(p) == b
    ensures Step({}, SIZES, BlobsWith(p), SUM_A, BlobsWith(p[0 := b]))
  {
    ExampleUpdate(p, p[0 := b]);
    assert p[0..8] == p;
  }

  lemma ExampleAllocate(z: seq<byte>, first: Tracker)
    requires |z| == 8 && first == map["a" := Blob(0x1000, z, true)]
    ensures WellPlaced(first)
    ensures Step({}, SIZES, map[], ALLOCATE_A, first)
    ensures Step({}, SIZES, first, ALLOCATE_B, BlobsWith(z))
  {
    assert BlobsWith(z) == first["b" := Blob(0x2000, [0], true)];
  }

  lemma NothingPlaced()
    ensures WellPlaced(map[])
  {
  }

  lemma ExampleTrace(z: seq<byte>, p: seq<byte>, b: byte) returns (script: seq<Command>, hist: seq<Tracker>)
    requires |z| == 8 && FromLE(z) == 0 && p == ToLE(0x2000, 8) && CheckSum8(p) == b
    ensures Restricted(script) == {} && Trace(script, {}, SIZES, hist) && ADD_A in script
    ensures hist[|script|] == BlobsWith(p[0 := b])
  {
    hide WellPlaced, Step, BlobsWith, FromLE, ToLE, CheckSum8;
    var t1: Tracker := map["a" := Blob(0x1000, z, true)];
    var t2, t3, t4 := BlobsWith(z), BlobsWith(p), BlobsWith(p[0 := b]);
    ExampleAllocate(z, t1);
    ExampleAdd(z, p);
    ExampleSum(p, b);
    ExampleUpdate(z, p);
    ExampleUpdate(p, p[0 := b]);
    ExampleUpdate(p[0 := b], p);
    NothingPlaced();
    script, hist := [ALLOCATE_A, ALLOCATE_B, ADD_A, SUM_A], [map[], t1, t2, t3, t4];
    assert script[2] == ADD_A;
  }

  /**
   A checksum stored into a pointer that was relocated before moves it out of
   its pointee: relocation does not survive a later write into the field.
   */
  lemma OverwrittenPointerDangles() returns (script: seq<Command>, hist: seq<Tracker>)
    ensures Restricted(script) == {} && Trace(script, {}, SIZES, hist) && ADD_A in script
    ensures !Points(hist[|script|], ADD_A)
  {
    hide FromLE, ToLE, Total, BlobsWith, Points, Trace;
    ExampleBytes();
    var z, p, b := ZEROS, PATCHED, 0xE0;
    script, hist := ExampleTrace(z, p, b);
    assert p[0 := b] == BROKEN;
    ExampleDangles(p[0 := b]);
  }

  lemma ExampleDangles(s: seq<byte>)
    requires |s| == 8 && FromLE(s) == 0x20E0
    ensures !Points(BlobsWith(s), ADD_A)
  {
    assert s[0..8] == s;
  }
}
