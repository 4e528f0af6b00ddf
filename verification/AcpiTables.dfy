/**
 How the second pass of the linker/loader looks for ACPI tables at the targets
 of AddPointer commands (AcpiPlatformDxe/QemuFwCfgAcpi.c).
 */
module AcpiTables {
  import opened Words
  import opened Bytes
  import opened LinkerScript

  const FACS_SIZE := 64
  const HEADER_SIZE := 36
  const FACS_SIGNATURE: seq<byte> := [0x46, 0x41, 0x43, 0x53]
  const RSDT_SIGNATURE: seq<byte> := [0x52, 0x53, 0x44, 0x54]
  const XSDT_SIGNATURE: seq<byte> := [0x58, 0x53, 0x44, 0x54]

  /** Opaque data, a root table that is recognised but left alone, or a table to install. */
  datatype Target = Opaque | RootTable | Table(length: nat)

  function SignatureAt(bytes: seq<byte>, at: nat): seq<byte>
    requires at + 8 <= |bytes|
  {
    bytes[at..at + 4]
  }

  function LengthAt(bytes: seq<byte>, at: nat): nat
    requires at + 8 <= |bytes|
  {
    FromLE(bytes[at + 4..at + 8])
  }

  /** The FACS has a header of its own, without a checksum. */
  predicate IsFacs(bytes: seq<byte>, at: nat) {
    && at + FACS_SIZE <= |bytes|
    && FACS_SIZE <= LengthAt(bytes, at) <= |bytes| - at
    && SignatureAt(bytes, at) == FACS_SIGNATURE
  }

  /** A uniform table: a length that fits, and bytes that sum to zero. */
  predicate IsUniformTable(bytes: seq<byte>, at: nat) {
    && at + HEADER_SIZE <= |bytes|
    && HEADER_SIZE <= LengthAt(bytes, at) <= |bytes| - at
    && Sum8(bytes[at..at + LengthAt(bytes, at)]) == 0
  }

  function Classify(bytes: seq<byte>, at: nat): (r: Target)
    ensures r.Table? ==> HEADER_SIZE <= r.length <= |bytes| - at
  {
    if IsFacs(bytes, at) then Table(LengthAt(bytes, at))
    else if !IsUniformTable(bytes, at) then Opaque
    else if SignatureAt(bytes, at) == RSDT_SIGNATURE || SignatureAt(bytes, at) == XSDT_SIGNATURE then RootTable
    else Table(LengthAt(bytes, at))
  }

  /**
   The tests as Process2ndPassCmdAddPointer makes them; a table size of zero stands
   for "not found". A FACS is installed without a look at its sum; of the tables that
   sum to zero all are installed but the RSDT and the XSDT.
   */
  method Inspect(bytes: seq<byte>, at: nat) returns (target: Target)
    requires at < |bytes|
    ensures target == Classify(bytes, at)
    ensures at + 36 > |bytes| ==> target == Opaque
    ensures at + 36 <= |bytes| ==>
              var signature, length := bytes[at..at + 4], FromLE(bytes[at + 4..at + 8]);
              var facs := at + 64 <= |bytes| && 64 <= length <= |bytes| - at && signature == [0x46, 0x41, 0x43, 0x53];
              var sums := 36 <= length <= |bytes| - at && Total(bytes[at..at + length]) % 256 == 0;
              var root := signature == [0x52, 0x53, 0x44, 0x54] || signature == [0x58, 0x53, 0x44, 0x54];
              && (target == Table(length) <==> facs || (sums && !root))
              && (target == RootTable <==> !facs && sums && root)
              && (target == Opaque <==> !facs && !sums)
  {
    var remaining := |bytes| - at;
    var tableSize := 0;
    if FACS_SIZE <= remaining {
      var length := LengthAt(bytes, at);
      if length >= FACS_SIZE && length <= remaining && SignatureAt(bytes, at) == FACS_SIGNATURE {
        tableSize := length;
      }
    }
    if tableSize == 0 && HEADER_SIZE <= remaining {
      var length := LengthAt(bytes, at);
      if length >= HEADER_SIZE && length <= remaining && Sum8(bytes[at..at + length]) == 0 {
        tableSize := length;
        var signature := SignatureAt(bytes, at);
        if signature == RSDT_SIGNATURE || signature == XSDT_SIGNATURE {
          return RootTable;
        }
      }
    }
    target := if tableSize == 0 then Opaque else Table(tableSize);
  }

  /** What the AddPointer command c leads to once the first pass is over. */
  function TargetOf(t: Tracker, c: Command): Target
    requires c.AddPointer? && FieldExists(t, c)
  {
    var pointee := t[c.pointeeFile.id];
    var value := FieldValue(t, c);
    if value < pointee.base then Opaque else Classify(pointee.bytes, value - pointee.base)
  }

  /**
   The two passes fit together: a table whose AddChecksum covers exactly
   its length and whose checksum byte came as zero is recognised, if no later
   command writes into the table or into the pointer that leads to it.
   */
  lemma ChecksummedTablesAreRecognised(script: seq<Command>, restricted: set<string>, sizes: map<string, nat>,
                                       hist: seq<Tracker>, p: nat, s: nat)
    requires Trace(script, restricted, sizes, hist) && p < |script| && s < |script|
    requires script[p].AddPointer? && Untouched(script, p + 1, Written(script[p]))
    requires script[s].AddChecksum? && Untouched(script, s + 1, Checksummed(script[s]))
    requires script[s].file == script[p].pointeeFile
    requires script[s].start <= script[s].resultOffset < script[s].start + script[s].length
    requires script[s].length >= HEADER_SIZE
    requires FieldExists(hist[p], script[p]) && FieldValue(hist[p], script[p]) == script[s].start
    requires ChecksumRangeExists(hist[s], script[s])
    requires hist[s][script[s].file.id].bytes[script[s].resultOffset] == 0
    requires script[s].file.id in hist[|script|]
    requires var bytes := hist[|script|][script[s].file.id].bytes;
             script[s].start + 8 <= |bytes| && LengthAt(bytes, script[s].start) == script[s].length
    ensures FieldExists(hist[|script|], script[p]) && !TargetOf(hist[|script|], script[p]).Opaque?
  {
    var c, last := script[p], hist[|script|];
    RelocationSound(script, restricted, sizes, hist, p);
    ChecksumSound(script, restricted, sizes, hist, s);
    RelocatedTo(script, restricted, sizes, hist, p);
    assert IsUniformTable(last[c.pointeeFile.id].bytes, script[s].start);
  }

  /** The field of an AddPointer ends as the address of the offset that it held before. */
  lemma RelocatedTo(script: seq<Command>, restricted: set<string>, sizes: map<string, nat>, hist: seq<Tracker>, p: nat)
    requires Trace(script, restricted, sizes, hist) && p < |script|
    requires script[p].AddPointer? && Untouched(script, p + 1, Written(script[p]))
    ensures FieldExists(hist[p], script[p]) && FieldExists(hist[|script|], script[p])
    ensures FieldValue(hist[|script|], script[p]) ==
            hist[|script|][script[p].pointeeFile.id].base + FieldValue(hist[p], script[p])
  {
    var c, lo := script[p], script[p].pointerOffset;
    assert Step(restricted, sizes, hist[p], c, hist[p + 1]);
    AddPointerRelocates(hist[p], c);
    FieldsStay(script, restricted, sizes, hist, p);
    TraceFrame(script, restricted, sizes, hist, p + 1, |script|, c.pointerFile.id, lo, lo + c.pointerSize);
    TracePlaces(script, restricted, sizes, hist, p, |script|, c.pointeeFile.id);
  }
}
