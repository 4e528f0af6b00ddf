/**
 The linker/loader interpreter of AcpiPlatformDxe/QemuFwCfgAcpi.c, with the
 firmware services that it uses. A service may fail on any call: the choice is
 left open, so that every claim covers every point of failure.
 */
module Loader {
  import opened Words
  import opened Bytes
  import opened LinkerScript
  import opened AcpiTables
  import opened BootScript
  import opened FwCfgPointers
  import opened PageLedger
  import opened TableScan

  datatype Status =
    | Success | ProtocolError | Unsupported | OutOfResources | NotFound | InvalidParameter
    | ServiceError  // an error code handed through from a firmware service
    | AssertHalt    // an ASSERT did not hold; the firmware stops here
    | DeadLoop      // a boot script opcode could not be saved; the firmware stops here

  /** The firmware does not come back from the call. */
  predicate Dead(status: Status) {
    status == AssertHalt || status == DeadLoop
  }

  /** The pool objects of one run, apart from the BLOB structures. */
  datatype PoolObject =
    ScriptCopy | RestrictedNames | S3Head | S3Array | TrackerHead | KeyArray | SeenPointers

  const S3_RECORD: set<PoolObject> := {S3Head, S3Array}

  /** Two objects that come and go do not matter for the rest. */
  lemma PoolBack(pool: set<PoolObject>, handed: set<PoolObject>, a: PoolObject, b: PoolObject)
    requires a !in pool && b !in pool && a !in S3_RECORD && b !in S3_RECORD && handed <= S3_RECORD
    ensures pool + {a} + {b} - {b} - {a} == pool
    ensures pool + {a} + {b} - S3_RECORD + handed - {b} - {a} == pool - S3_RECORD + handed
  {
  }

  const INSTALLED_TABLES_MAX := 128

  // ----- The checks of AddPointer and WritePointer -----

  method CheckAddPointer(t: Tracker, c: Command) returns (v: Verdict)
    requires c.AddPointer?
    ensures v == AddPointerVerdict(t, c)
  {
    if c.pointerFile.Unterminated? || c.pointeeFile.Unterminated? {
      return Malformed;
    }
    if c.pointerFile.id !in t || c.pointeeFile.id !in t {
      return UnknownFile;
    }
    var pointer, pointee := t[c.pointerFile.id], t[c.pointeeFile.id];
    if !ValidPointerSize(c.pointerSize) || |pointer.bytes| < c.pointerSize
       || |pointer.bytes| - c.pointerSize < c.pointerOffset {
      return BadLocation;
    }
    var value := FromLE(pointer.bytes[c.pointerOffset..c.pointerOffset + c.pointerSize]);
    if value >= |pointee.bytes| {
      return BadValue;
    }
    value := value + pointee.base;
    if c.pointerSize < 8 && ShiftedOut(value, c.pointerSize) != 0 {
      return Unrepresentable;
    }
    return Accept(value);
  }

  method CheckWritePointer(t: Tracker, sizes: map<string, nat>, c: Command) returns (v: Verdict)
    requires c.WritePointer?
    ensures v == WritePointerVerdict(t, sizes, c)
  {
    if c.pointerFile.Unterminated? || c.pointeeFile.Unterminated? {
      return Malformed;
    }
    if c.pointerFile.id !in sizes || c.pointeeFile.id !in t {
      return UnknownFile;
    }
    var size, pointee := sizes[c.pointerFile.id], t[c.pointeeFile.id];
    if !ValidPointerSize(c.pointerSize) || size < c.pointerSize || size - c.pointerSize < c.pointerOffset {
      return BadLocation;
    }
    if c.pointeeOffset >= |pointee.bytes| {
      return BadValue;
    }
    var value := c.pointeeOffset + pointee.base;
    if c.pointerSize < 8 && ShiftedOut(value, c.pointerSize) != 0 {
      return Unrepresentable;
    }
    return Accept(value);
  }

  /** RShiftU64 (value, size * 8): the part of the value that a pointer of this size cannot hold. */
  function ShiftedOut(value: nat, size: u8): (r: nat)
    ensures r == 0 <==> value < Pow256(size)
  {
    if size == 0 then value else ShiftedOut(value / 256, size - 1)
  }

  /** Whether services fail only for want of room, and the pages in use when a run begins. */
  datatype Env = Env(reliable: bool, others: Pages)

  /** There is no place for that many bytes before the end. */
  ghost predicate NoPlace(pages: Pages, length: nat, end: nat) {
    forall base: nat :: Taken(pages, base, length, end)
  }

  /** That many bytes cannot be allocated at base: they are not on whole pages, not below the end, or not free. */
  ghost predicate Taken(pages: Pages, base: nat, length: nat, end: nat) {
    || base % 4096 != 0 || length == 0 || base + length > end
    || exists x {:trigger x in pages} :: x in pages && base < x.base + x.length && x.base < base + length
  }

  lemma TakenUnlessFits(pages: Pages, base: nat, length: nat, limit: nat)
    requires limit <= MAX_UINT64 && !Fits(pages, Extent(base, length), limit)
    ensures Taken(pages, base, length, if limit == MAX_UINT64 then MAX_UINT64 else limit + 1)
  {
    if x :| x in pages && !Extent(base, length).Clear(x) {
      assert base < x.base + x.length && x.base < base + length;
    }
  }

  lemma NothingFits(pages: Pages, length: nat, limit: nat)
    requires limit <= MAX_UINT64 && forall base: nat :: !Fits(pages, Extent(base, length), limit)
    ensures NoPlace(pages, length, if limit == MAX_UINT64 then MAX_UINT64 else limit + 1)
  {
    hide Fits;
    var end := if limit == MAX_UINT64 then MAX_UINT64 else limit + 1;
    forall base: nat
      ensures Taken(pages, base, length, end)
    {
      TakenUnlessFits(pages, base, length, limit);
    }
  }

  /** Why the first pass stops at a command, with the tracker t, and which status it gives. */
  ghost predicate Refused(restricted: set<string>, sizes: map<string, nat>, env: Env, t: Tracker, c: Command,
                          status: Status)
  {
    match c
    case Allocate(file, alignment) =>
      if file.Unterminated? then status == ProtocolError
      else if alignment > EFI_PAGE_SIZE then status == Unsupported
      else if file.id !in sizes then status == NotFound
      else
        || (status == ServiceError
            && (env.reliable ==>
                  NoPlace(env.others + PageSet(t), (sizes[file.id] + 4095) / 4096 * 4096,
                          if file.id in restricted then 0x1_0000_0000 else 0xFFFF_FFFF_FFFF_FFFF)))
        || (status == OutOfResources && !env.reliable)
        || (status == ProtocolError && file.id in t)
    case AddPointer(_, _, _, _) => status == ProtocolError && !AddPointerVerdict(t, c).Accept?
    case AddChecksum(_, _, _, _) => status == ProtocolError && !ChecksumRangeExists(t, c)
    case WritePointer(_, _, _, _, _) => status == ProtocolError && !WritePointerVerdict(t, sizes, c).Accept?
    case Unknown => false
  }

  /** The blobs whose addresses outlive a successful run: known to QEMU, or target of a pointer to other data. */
  ghost predicate Survives(script: seq<Command>, t: Tracker, id: string) {
    IsWritePointee(script, id) || HoldsOpaque(Findings(script, t), |script|, id)
  }

  ghost function SurvivingPages(script: seq<Command>, t: Tracker): Pages {
    set id | id in t && Survives(script, t, id) :: PagesOf(t[id])
  }

  /** After both passes a blob is marked exactly when it is to survive. */
  lemma MarkedMeansSurvives(script: seq<Command>, restricted: set<string>, sizes: map<string, nat>,
                            hist: seq<Tracker>, now: Tracker, id: string)
    requires Trace(script, restricted, sizes, hist)
             && MarkedSince(Findings(script, hist[|script|]), |script|, hist[|script|], now)
    requires id in now
    ensures Kept(now[id], false) <==> Survives(script, hist[|script|], id)
    ensures PagesOf(now[id]) == PagesOf(hist[|script|][id])
  {
    MarkedByWritePointer(script, restricted, sizes, hist, id);
  }

  /** An address in a blob stays allocated after a run exactly if the blob survives it. */
  ghost predicate TargetsLive(script: seq<Command>, t: Tracker, pages: Pages) {
    forall id, address: int {:trigger t[id].Holds(address)} :: id in t && t[id].Holds(address) ==>
      (Live(pages, address) <==> Survives(script, t, id))
  }

  /** Nothing but the surviving blobs keeps the addresses of a blob allocated: pages do not overlap. */
  lemma TargetsLiveAfter(script: seq<Command>, t: Tracker, now: Tracker, pages: Pages, others: Pages)
    requires PagesOk(pages) && Owns(pages, others, now) && now.Keys == t.Keys
    requires forall id :: id in t ==> PagesOf(now[id]) == PagesOf(t[id])
    ensures TargetsLive(script, t, others + SurvivingPages(script, t))
  {
    var left := others + SurvivingPages(script, t);
    forall id, address: int | id in t && t[id].Holds(address)
      ensures Live(left, address) <==> Survives(script, t, id)
    {
      if Survives(script, t, id) {
        assert PagesOf(t[id]) in left && PagesOf(t[id]).Contains(address);
      } else if Live(left, address) {
        var x :| x in left && x.Contains(address);
        OnlyItsPages(script, t, now, pages, others, id, address, x);
      }
    }
  }

  lemma OnlyItsPages(script: seq<Command>, t: Tracker, now: Tracker, pages: Pages, others: Pages,
                     id: string, address: int, x: Extent)
    requires PagesOk(pages) && Owns(pages, others, now) && now.Keys == t.Keys
    requires forall y :: y in t ==> PagesOf(now[y]) == PagesOf(t[y])
    requires id in t && t[id].Holds(address) && x.Contains(address)
    requires x in others || x in SurvivingPages(script, t)
    ensures Survives(script, t, id)
  {
    Owned(pages, others, now, id);
    assert PagesOf(now[id]) in PageSet(now);
    assert x in others ==> x in pages;
    var y :| y in t && Survives(script, t, y) && x == PagesOf(t[y]);
    Owned(pages, others, now, y);
    assert !PagesOf(now[y]).Clear(PagesOf(now[id]));
  }

  lemma SurvivorsAre(script: seq<Command>, restricted: set<string>, sizes: map<string, nat>,
                     hist: seq<Tracker>, now: Tracker)
    requires Trace(script, restricted, sizes, hist)
             && MarkedSince(Findings(script, hist[|script|]), |script|, hist[|script|], now)
    ensures Survivors(now, false) == SurvivingPages(script, hist[|script|])
  {
    forall id | id in now
      ensures Kept(now[id], false) <==> Survives(script, hist[|script|], id)
      ensures PagesOf(now[id]) == PagesOf(hist[|script|][id])
    {
      MarkedMeansSurvives(script, restricted, sizes, hist, now, id);
    }
  }

  /** A blob that QEMU has an address in is marked. */
  lemma ToldBlobsAreMarked(directory: map<string, u16>, script: seq<Command>, restricted: set<string>,
                           sizes: map<string, nat>, hist: seq<Tracker>, now: Tracker, ws: seq<Condensed>,
                           pages: Pages, others: Pages, w: Condensed, id: string)
    requires Trace(script, restricted, sizes, hist)
             && MarkedSince(Findings(script, hist[|script|]), |script|, hist[|script|], now)
    requires WritesOf(directory, hist[|script|], script, |script|, ws)
    requires PagesOk(pages) && Owns(pages, others, now)
    requires w in ws && id in now && PagesOf(now[id]).Contains(w.value)
    ensures Kept(now[id], false)
  {
    var j :| 0 <= j < |ws| && ws[j] == w;
    var i := WriteHasCommand(script, |script|, j);
    var pointee := script[i].pointeeFile.id;
    assert Carries(directory, hist[|script|], script[i], w);
    Owned(pages, others, now, id);
    Owned(pages, others, now, pointee);
    assert PagesOf(now[pointee]).Contains(w.value);
    assert !PagesOf(now[pointee]).Clear(PagesOf(now[id]));
    assert IsWritePointee(script, id);
    MarkedMeansSurvives(script, restricted, sizes, hist, now, id);
  }

  /** The second pass does not change which address a write carries. */
  lemma SameWrites(directory: map<string, u16>, f: seq<Finding>, t: Tracker, now: Tracker, script: seq<Command>,
                   j: nat, subsetEnd: nat, k: nat, ws: seq<Condensed>)
    requires j <= |f| && subsetEnd <= k <= |script| && MarkedSince(f, j, t, now)
    requires WritesOf(directory, t, script, k, ws) && WriteCount(script, subsetEnd) == WriteCount(script, k)
    ensures WritesOf(directory, now, script, subsetEnd, ws)
  {
    forall i | 0 <= i < subsetEnd && script[i].WritePointer?
      ensures Carries(directory, now, script[i], ws[WriteCount(script, i)])
    {
      assert Carries(directory, t, script[i], ws[WriteCount(script, i)]);
    }
  }

  /** The ASSERTs of the second pass fail only for a field that does not end as the pointer it was to be. */
  lemma HaltedMeansNotAimed(script: seq<Command>, restricted: set<string>, sizes: map<string, nat>, run: Run)
    requires run.Halted(script, restricted, sizes, AssertHalt)
    ensures !AllAimed(script)
  {
    AllAimedPoint(script, restricted, sizes, run.hist);
  }

  /** A run that succeeds has no field that was aimed elsewhere afterwards. */
  lemma FinishedMeansNotMisaimed(script: seq<Command>, restricted: set<string>, directory: map<string, u16>,
                                 sizes: map<string, nat>, tables0: Tables, tables: Tables, run: Run)
    requires run.Finished(script, restricted, directory, sizes, tables0, tables)
    ensures !SomeMisaimed(script)
  {
    assert script[..run.k] == script;
    AllAimedPoint(script, restricted, sizes, run.hist);
  }

  /** A 4-byte pointer for whose pointee pass zero has asked for a place below 4 GiB. */
  ghost predicate Narrow(script: seq<Command>, c: Command) {
    || (c.AddPointer? && c.pointerSize == 4)
    || (c.WritePointer? && c.pointerSize == 4 && c.pointeeFile.Terminated? && c.pointeeFile.id in Restricted(script))
  }

  /** The command is refused because the address does not fit its pointer. */
  ghost predicate TooWide(sizes: map<string, nat>, t: Tracker, c: Command) {
    || (c.AddPointer? && AddPointerVerdict(t, c).Unrepresentable?)
    || (c.WritePointer? && WritePointerVerdict(t, sizes, c).Unrepresentable?)
  }

  /**
   No run stops at a 4-byte AddPointer, or a 4-byte WritePointer to a collected blob,
   because its value does not fit.
   */
  lemma NeverUnrepresentable(script: seq<Command>, directory: map<string, u16>, sizes: map<string, nat>, run: Run)
    requires run.Began(script, Restricted(script), directory, sizes) && run.k < |script|
    requires Narrow(script, script[run.k])
    ensures !TooWide(sizes, run.hist[run.k], script[run.k])
  {
    if script[run.k].AddPointer? {
      FourBytePointersFit(script, run.k, sizes, run.hist, script[run.k]);
    } else {
      FourByteWritesFit(script, run.k, sizes, run.hist, script[run.k]);
    }
  }

  /**
   A WritePointer alone does not keep its pointee below 4 GiB: with the blob at
   4 GiB, the run of this script ends because the address does not fit.
   */
  lemma WideWritePointerRefused() returns (script: seq<Command>, sizes: map<string, nat>, hist: seq<Tracker>)
    ensures |script| == 2 && script[1].WritePointer? && script[1].pointerSize == 4
    ensures Trace(script[..1], Restricted(script), sizes, hist)
    ensures TooWide(sizes, hist[1], script[1])
    ensures forall env :: Refused(Restricted(script), sizes, env, hist[1], script[1], ProtocolError)
  {
    var c := WritePointer(Terminated("f"), Terminated("b"), 0, 0, 4);
    script, sizes := [ALLOCATE_B, c], map["b" := 1, "f" := 4];
    assert Trace(script[..0], Restricted(script), sizes, [map[]]);
    var t := PlaceAt(script, 0, sizes, [map[]], 0x1_0000_0000, [0]);
    hist := [map[], t];
    assert [map[]] + [t] == hist;
    Pow256Widths();
    assert WritePointerVerdict(t, sizes, c).Unrepresentable?;
  }

  lemma PageSetEmpty(pages: Pages, others: Pages)
    requires Owns(pages, others, map[])
    ensures pages == others
  {
    assert PageSet(map[]) == {};
  }

  lemma AllFieldsStay(script: seq<Command>, restricted: set<string>, sizes: map<string, nat>, hist: seq<Tracker>)
    requires Trace(script, restricted, sizes, hist)
    ensures forall i :: 0 <= i < |script| && script[i].AddPointer? ==> FieldExists(hist[|script|], script[i])
  {
    forall i | 0 <= i < |script| && script[i].AddPointer?
      ensures FieldExists(hist[|script|], script[i])
    {
      FieldsStay(script, restricted, sizes, hist, i);
    }
  }

  /** What a run can be told from, from the outside. */
  datatype State = State(pages: Pages, tables: Tables, items: Items, told: seq<Condensed>, resume: seq<Opcode>)

  /** How far a run got: not to the first command, to some command, or past all of them. */
  datatype Stage = Preparing | Linking | Installing

  /** What happened in a run: how far the first pass got, the trackers on the way, the writes, the new tables. */
  datatype Run = Run(stage: Stage, k: nat, hist: seq<Tracker>, writes: seq<Condensed>, newKeys: seq<nat>,
                     held: seq<(nat, nat)>) {
    ghost predicate Began(script: seq<Command>, restricted: set<string>, directory: map<string, u16>,
                          sizes: map<string, nat>)
    {
      && k <= |script| && Trace(script[..k], restricted, sizes, hist)
      && WritesOf(directory, hist[k], script, k, writes)
    }

    /** Why a run fails: the status at each stage. Services that do not fail leave few reasons. */
    ghost predicate Stopped(script: seq<Command>, restricted: set<string>, sizes: map<string, nat>, s3Enabled: bool,
                            env: Env, status: Status)
    {
      match stage
      case Preparing =>
        && k == 0 && |writes| == 0
        && ((status == OutOfResources && !env.reliable)
            || (status == ProtocolError
                && exists c <- script :: c.AddPointer? && c.pointerSize < 8 && c.pointeeFile.Unterminated?)
            || (status == InvalidParameter && s3Enabled && script == []))
      case Linking =>
        k < |script| && |hist| == k + 1 && Refused(restricted, sizes, env, hist[k], script[k], status)
      case Installing =>
        && k == |script| && |hist| == k + 1 && (status == OutOfResources || status == ServiceError)
        && (env.reliable ==> status == OutOfResources && TooManyTables(script, hist[k]))
    }

    /**
     Nothing is left behind: pages and tables are as before, and every byte
     range by which QEMU learned an address is zero.
     */
    ghost predicate Failed(script: seq<Command>, restricted: set<string>, directory: map<string, u16>,
                           sizes: map<string, nat>, s0: State, s: State)
    {
      && Began(script, restricted, directory, sizes)
      && s.pages == s0.pages && s.tables == s0.tables && s.resume == s0.resume
      && s.told == [] && Revoked(s0.items, writes, s.items)
    }

    /** The new tables are those found, each installed once. */
    ghost predicate Finished(script: seq<Command>, restricted: set<string>, directory: map<string, u16>,
                             sizes: map<string, nat>, tables0: Tables, tables: Tables)
    {
      && k == |script| && Began(script, restricted, directory, sizes) && AllPoint(script, hist[k])
      && FoundExactly(Findings(script, hist[k]), k, held) && InstalledUnder(newKeys, held, tables0, tables)
      && |held| <= 128
    }

    /**
     Exactly the pages of the surviving blobs are added, so that a pointer into a
     blob leads to allocated memory exactly if the blob survives; fw_cfg holds the
     writes of the WritePointer commands, and S3 resume repeats them.
     */
    ghost predicate Succeeded(script: seq<Command>, restricted: set<string>, directory: map<string, u16>,
                              sizes: map<string, nat>, s3Enabled: bool, s0: State, s: State)
    {
      && Finished(script, restricted, directory, sizes, s0.tables, s.tables)
      && s.pages == s0.pages + SurvivingPages(script, hist[k]) && TargetsLive(script, hist[k], s.pages)
      && s.told == writes && s.items == WriteAll(s0.items, writes)
      && s.resume == s0.resume + if s3Enabled then Opcodes(writes) else []
    }

    lemma FinishedTrace(script: seq<Command>, restricted: set<string>, directory: map<string, u16>,
                        sizes: map<string, nat>, tables0: Tables, tables: Tables)
      requires Finished(script, restricted, directory, sizes, tables0, tables)
      ensures k == |script| && Trace(script, restricted, sizes, hist)
      ensures |hist| == |script| + 1 && WritesOf(directory, hist[|script|], script, |script|, writes)
    {
      assert script[..k] == script;
    }

    lemma FailedIf(script: seq<Command>, restricted: set<string>, directory: map<string, u16>,
                   sizes: map<string, nat>, s0: State, s: State)
      requires Began(script, restricted, directory, sizes)
      requires s == s0.(items := s.items, told := []) && Revoked(s0.items, writes, s.items)
      ensures Failed(script, restricted, directory, sizes, s0, s)
    {
    }

    lemma SucceededIf(script: seq<Command>, restricted: set<string>, directory: map<string, u16>,
                      sizes: map<string, nat>, s3Enabled: bool, s0: State, s: State)
      requires Finished(script, restricted, directory, sizes, s0.tables, s.tables)
      requires s == State(s0.pages + SurvivingPages(script, hist[k]), s.tables, WriteAll(s0.items, writes), writes,
                          s0.resume + if s3Enabled then Opcodes(writes) else [])
      requires TargetsLive(script, hist[k], s.pages)
      ensures Succeeded(script, restricted, directory, sizes, s3Enabled, s0, s)
    {
    }

    /** The firmware stops in the second pass at a failing ASSERT, or after it in the callback of the boot script. */
    ghost predicate Halted(script: seq<Command>, restricted: set<string>, sizes: map<string, nat>, status: Status) {
      && k == |script| && Trace(script, restricted, sizes, hist)
      && (status == AssertHalt ==> !AllPoint(script, hist[k]))
      && (status == DeadLoop ==> AllPoint(script, hist[k]) && writes != [])
    }
  }

  /** How a run ends: with what it promises, without a trace, or not at all. */
  ghost predicate Ended(script: seq<Command>, restricted: set<string>, directory: map<string, u16>,
                        sizes: map<string, nat>, s3Enabled: bool, reliable: bool, s0: State, s: State, status: Status,
                        run: Run)
  {
    if status == Success then
      run.Succeeded(script, restricted, directory, sizes, s3Enabled, s0, s)
    else if Dead(status) then
      run.Halted(script, restricted, sizes, status) && (status == DeadLoop ==> s3Enabled && !reliable)
    else
      && run.Failed(script, restricted, directory, sizes, s0, s)
      && run.Stopped(script, restricted, sizes, s3Enabled, Env(reliable, s0.pages), status)
  }

  lemma DeadEnds(script: seq<Command>, restricted: set<string>, directory: map<string, u16>,
                 sizes: map<string, nat>, s3Enabled: bool, reliable: bool, s0: State, s: State, status: Status,
                 run: Run)
    requires Dead(status) && run.Halted(script, restricted, sizes, status)
    requires status == DeadLoop ==> s3Enabled && !reliable
    ensures Ended(script, restricted, directory, sizes, s3Enabled, reliable, s0, s, status, run)
  {
  }

  /** The pointers lead to more than 128 tables. */
  ghost predicate TooManyTables(script: seq<Command>, t: Tracker) {
    exists found: seq<(nat, nat)> :: |found| == 129 && AreFound(script, t, found)
  }

  /** Tables at different addresses, and pointers that lead to them. */
  ghost predicate AreFound(script: seq<Command>, t: Tracker, found: seq<(nat, nat)>) {
    && (forall a, b :: 0 <= a < b < |found| ==> found[a].0 != found[b].0)
    && (forall a :: 0 <= a < |found| ==> FindsTable(Findings(script, t), |script|, found[a]))
  }

  /** With 128 tables installed, one more is too many. */
  lemma OneTooMany(script: seq<Command>, k: nat, t: Tracker, now: Tracker, seen: set<nat>, held: seq<(nat, nat)>)
    requires Scanned(Findings(script, t), k, t, now, seen, held) && |held| == 128 && k < |script|
    requires Findings(script, t)[k].Lead? && Findings(script, t)[k].target.Table?
    requires Findings(script, t)[k].address !in seen
    ensures TooManyTables(script, t)
  {
    var f := Findings(script, t);
    var table := (f[k].address, f[k].target.length);
    var found := held + [table];
    forall a | 0 <= a < |held|
      ensures held[a].0 != table.0 && FindsTable(f, |script|, held[a])
    {
      assert held[a] in held;
      assert FindsTable(f, k, held[a]);
      assert Reached(f, k, held[a].0);
    }
    assert FindsTable(f, |script|, table);
    assert AreFound(script, t, found);
  }

  /** What the second pass and the steps after it have done to the tracker t and the tables. */
  ghost predicate Installed(script: seq<Command>, reliable: bool, t: Tracker, now: Tracker,
                            tables0: Tables, tables: Tables, status: Status,
                            k: nat, seen: set<nat>, newKeys: seq<nat>, held: seq<(nat, nat)>)
  {
    match status
    case Success =>
      && k == |script| && AllPoint(script, t) && InstalledUnder(newKeys, held, tables0, tables) && |held| <= 128
      && Scanned(Findings(script, t), k, t, now, seen, held)
    case AssertHalt => !AllPoint(script, t)
    case DeadLoop => AllPoint(script, t) && !reliable
    case OutOfResources =>
      && tables == tables0 && Scanned(Findings(script, t), k, t, now, seen, held)
      && (reliable ==> TooManyTables(script, t))
    case ServiceError => tables == tables0 && Scanned(Findings(script, t), k, t, now, seen, held) && !reliable
    case _ => false
  }

  lemma NoneInstalledYet(script: seq<Command>, t: Tracker, tables: Tables)
    ensures Installed(script, false, t, t, tables, tables, OutOfResources, 0, {}, [], [])
  {
    ScanStart(Findings(script, t), t);
  }

  /** What the first pass has done, in terms of the run. */
  lemma AfterFirstPass(directory: map<string, u16>, restricted: set<string>, sizes: map<string, nat>,
                       script: seq<Command>, k: nat, hist: seq<Tracker>, t: Tracker, ws: seq<Condensed>,
                       items0: Items, items: Items,
                       subsetEnd: nat, s3Enabled: bool, env: Env, status: Status)
    requires Progress(directory, restricted, sizes, script, k, hist, t, ws, items0, items)
             && SubsetEnd(script, subsetEnd, k)
    requires k < |script| && Refused(restricted, sizes, env, t, script[k], status)
    ensures var run := Run(Linking, k, hist, ws, [], []);
            && run.Began(script, restricted, directory, sizes)
            && run.Stopped(script, restricted, sizes, s3Enabled, env, status)
    ensures subsetEnd <= |script| && WritesOf(directory, t, script, subsetEnd, ws) && items == WriteAll(items0, ws)
  {
    ScanStart([], t);
    SameWrites(directory, [], t, t, script, 0, subsetEnd, k, ws);
  }

  lemma FieldsAfterFirstPass(directory: map<string, u16>, restricted: set<string>, sizes: map<string, nat>,
                             script: seq<Command>, hist: seq<Tracker>, t: Tracker, ws: seq<Condensed>,
                             items0: Items, items: Items)
    requires Progress(directory, restricted, sizes, script, |script|, hist, t, ws, items0, items)
    ensures forall i :: 0 <= i < |script| && script[i].AddPointer? ==> FieldExists(t, script[i])
  {
    assert script[..|script|] == script;
    AllFieldsStay(script, restricted, sizes, hist);
  }

  /** What both passes have done, in terms of the run. */
  lemma AfterBothPasses(directory: map<string, u16>, restricted: set<string>, sizes: map<string, nat>,
                        script: seq<Command>, hist: seq<Tracker>, t: Tracker, ws: seq<Condensed>,
                        items0: Items, items: Items,
                        subsetEnd: nat, s3Enabled: bool, env: Env, status: Status,
                        now: Tracker, tables0: Tables, tables: Tables,
                        k: nat, seen: set<nat>, newKeys: seq<nat>, held: seq<(nat, nat)>)
    requires Progress(directory, restricted, sizes, script, |script|, hist, t, ws, items0, items)
    requires SubsetEnd(script, subsetEnd, |script|)
    requires Installed(script, env.reliable, t, now, tables0, tables, status, k, seen, newKeys, held)
    requires status == DeadLoop ==> ws != []
    ensures var run := Run(Installing, |script|, hist, ws, newKeys, held);
            && (Dead(status) ==> run.Halted(script, restricted, sizes, status))
            && (status == DeadLoop ==> !env.reliable)
            && (!Dead(status) ==>
                  run.Began(script, restricted, directory, sizes) && WritesOf(directory, now, script, subsetEnd, ws))
            && (status == Success ==>
                  && run.Finished(script, restricted, directory, sizes, tables0, tables)
                  && MarkedSince(Findings(script, hist[|script|]), |script|, hist[|script|], now))
            && (status != Success && !Dead(status) ==>
                  tables == tables0 && run.Stopped(script, restricted, sizes, s3Enabled, env, status))
    ensures subsetEnd <= |script| && items == WriteAll(items0, ws)
  {
    assert script[..|script|] == script;
    if !Dead(status) {
      SameWrites(directory, Findings(script, t), t, now, script, k, subsetEnd, |script|, ws);
    }
  }

  const NOT_BEGUN := Run(Preparing, 0, [map[]], [], [], [])

  /** A run that ends before its first command leaves everything as it was. */
  lemma NotBegunEnds(script: seq<Command>, restricted: set<string>, directory: map<string, u16>,
                     sizes: map<string, nat>, s3Enabled: bool, reliable: bool, s: State, status: Status)
    requires s.told == []
    requires NOT_BEGUN.Stopped(script, restricted, sizes, s3Enabled, Env(reliable, s.pages), status)
    ensures Ended(script, restricted, directory, sizes, s3Enabled, reliable, s, s, status, NOT_BEGUN)
  {
    assert Trace(script[..0], restricted, sizes, [map[]]);
  }

  lemma NoMemoryEnds(script: seq<Command>, restricted: set<string>, directory: map<string, u16>,
                     sizes: map<string, nat>, s3Enabled: bool, s: State)
    requires s.told == []
    ensures Ended(script, restricted, directory, sizes, s3Enabled, false, s, s, OutOfResources, NOT_BEGUN)
  {
    NotBegunEnds(script, restricted, directory, sizes, s3Enabled, false, s, OutOfResources);
  }

  /**
   Where a relocated pointer leads after a successful run: its target is still
   allocated exactly if its pointee survives.
   */
  lemma FieldLiveIff(script: seq<Command>, restricted: set<string>, directory: map<string, u16>,
                     sizes: map<string, nat>, s3Enabled: bool, s0: State, s: State, run: Run, i: nat)
    requires run.Succeeded(script, restricted, directory, sizes, s3Enabled, s0, s)
    requires i < |script| && script[i].AddPointer?
    ensures FieldExists(run.hist[run.k], script[i])
    ensures Live(s.pages, FieldValue(run.hist[run.k], script[i])) <==>
            Survives(script, run.hist[run.k], script[i].pointeeFile.id)
  {
    assert Points(run.hist[run.k], script[i]);
  }

  /**
   What QEMU is left with: the range of every WritePointer, unless a later one
   writes into it, holds the address that the command asks for, and memory is
   allocated there.
   */
  ghost predicate AllTold(directory: map<string, u16>, t: Tracker, script: seq<Command>, items: Items, pages: Pages) {
    forall i :: 0 <= i < |script| && script[i].WritePointer? && LastTelling(directory, script, i) ==>
      && HoldsAddress(directory, t, script[i], items)
      && Live(pages, t[script[i].pointeeFile.id].base + script[i].pointeeOffset)
  }

  /** S3 resume brings about the same in a device that has lost what its items held. */
  ghost predicate AllToldAtResume(directory: map<string, u16>, t: Tracker, script: seq<Command>, s: State) {
    forall dev: Device :: SameSizes(dev.items, s.items) ==>
      AllTold(directory, t, script, dev.Execute(s.resume).items, s.pages)
  }

  lemma ToldBy(directory: map<string, u16>, t: Tracker, script: seq<Command>, ws: seq<Condensed>,
               before: Items, after: Items, pages: Pages)
    requires WritesOf(directory, t, script, |script|, ws) && ReadBack(ws, before, after) && NoDangling(pages, ws)
    requires forall w :: w in ws ==> w.FitsIn(before)
    ensures AllTold(directory, t, script, after, pages)
  {
    forall i | 0 <= i < |script| && script[i].WritePointer? && LastTelling(directory, script, i)
      ensures HoldsAddress(directory, t, script[i], after)
      ensures Live(pages, t[script[i].pointeeFile.id].base + script[i].pointeeOffset)
    {
      LastTellingHolds(directory, t, script, ws, before, after, i);
      assert Carries(directory, t, script[i], ws[WriteCount(script, i)]) && ws[WriteCount(script, i)] in ws;
    }
  }

  lemma ToldAfterRun(script: seq<Command>, restricted: set<string>, directory: map<string, u16>,
                     sizes: map<string, nat>, s3Enabled: bool, s0: State, s: State, run: Run)
    requires run.Succeeded(script, restricted, directory, sizes, s3Enabled, s0, s)
    requires NoDangling(s.pages, s.told) && forall w :: w in s.told ==> w.FitsIn(s.items)
    ensures AllTold(directory, run.hist[run.k], script, s.items, s.pages)
    ensures s3Enabled ==> AllToldAtResume(directory, run.hist[run.k], script, s)
  {
    var t, ws := run.hist[run.k], run.writes;
    WritesReadBack(s0.items, ws);
    ToldBy(directory, t, script, ws, s0.items, s.items, s.pages);
    if s3Enabled {
      forall dev: Device | SameSizes(dev.items, s.items)
        ensures AllTold(directory, t, script, dev.Execute(s.resume).items, s.pages)
      {
        ExecuteConcat(dev, s0.resume, Opcodes(ws));
        ExecuteKeepsSizes(dev, s0.resume);
        var dev' := dev.Execute(s0.resume);
        ReplayReads(dev', ws);
        ToldBy(directory, t, script, ws, dev'.items, dev.Execute(s.resume).items, s.pages);
      }
    }
  }

  lemma {:induction false} FreeKey(keys: set<nat>) returns (key: nat)
    ensures key !in keys && forall x :: x in keys ==> x < key
  {
    key := 0;
    if keys != {} {
      var x :| x in keys;
      var rest := keys - {x};
      key := FreeKey(rest);
      assert forall y :: y in keys ==> y == x || y in rest;
      key := if x < key then key else x + 1;
    }
  }

  class AcpiLoader {
    // The fw_cfg directory, and the items behind it.
    const selector: map<string, u16>
    const sizes: map<string, nat>
    var items: Items

    /** No service fails, except that there may be no place for pages. */
    const reliable: bool

    // Memory and the ACPI table protocol: key to address and length.
    var pages: Pages
    var pool: set<PoolObject>
    var blobStructs: set<string>
    var tables: Tables

    // The S3 boot script, and a record whose opcodes are to be appended once the boot script can be saved.
    var bootScript: seq<Opcode>
    var queued: S3Context?

    var tracker: Tracker

    ghost var pending: seq<Condensed>  // the entries of the record that is queued
    ghost var told: seq<Condensed>  // the writes by which QEMU learned addresses, not yet revoked
    ghost var others: Pages         // the page allocations that no tracked blob owns

    /** The platform before a run: the fw_cfg directory and items, the pages in use, the tables installed. */
    constructor (selector: map<string, u16>, sizes: map<string, nat>, items: Items, pages: Pages, tables: Tables,
                 reliable: bool)
      requires sizes.Keys == selector.Keys && PagesOk(pages)
      requires forall f :: f in sizes ==> selector[f] in items && |items[selector[f]]| == sizes[f]
      ensures Valid() && tracker == map[] && told == [] && pool == {}
      ensures this.selector == selector && this.sizes == sizes && this.items == items && this.reliable == reliable
      ensures this.pages == pages && this.tables == tables && bootScript == [] && Idle()
    {
      this.selector, this.sizes, this.items, this.pages, this.tables := selector, sizes, items, pages, tables;
      this.reliable := reliable;
      pool, blobStructs, bootScript, tracker, told, others := {}, {}, [], map[], [], pages;
      queued, pending := null, [];
      new;
      assert PageSet(map[]) == {};
    }

    ghost predicate Platform()
      reads `items, `pages, `told
    {
      && sizes.Keys == selector.Keys
      && (forall f :: f in sizes ==> selector[f] in items && |items[selector[f]]| == sizes[f])
      && PagesOk(pages)
      && NoDangling(pages, told)
      && (forall w {:trigger w in told} :: w in told ==> w.FitsIn(items) && ValidPointerSize(w.size))
    }

    ghost predicate Valid()
      reads `items, `pages, `told, `others, `tracker, `blobStructs
    {
      && Platform()
      && Owns(pages, others, tracker)
      && blobStructs == tracker.Keys
    }

    /** What S3 resume is going to execute: the boot script, and the opcodes of the record that waits for it. */
    ghost function Resume(): seq<Opcode>
      reads `bootScript, `pending
    {
      if pending == [] then bootScript else bootScript + Opcodes(pending)
    }

    /** No record waits for the boot script. */
    ghost predicate Idle()
      reads `queued, `pending
    {
      queued == null && pending == []
    }

    /** The record that waits is complete. */
    ghost predicate Waiting()
      reads `queued, `pending, queued, if queued != null then {queued.writePointers} else {}
    {
      queued != null ==> queued.Valid() && queued.Entries() == pending && forall w :: w in pending ==> w.size <= 8
    }

    /** What a run leaves in the pool: the record, if it waits. */
    ghost function Handed(): set<PoolObject>
      reads `queued
    {
      if queued == null then {} else S3_RECORD
    }

    ghost function Now(): State
      reads `pages, `tables, `items, `told, `bootScript, `pending
    {
      State(pages, tables, items, told, Resume())
    }

    // ----- Services -----

    method AllocatePages(limit: nat, length: nat) returns (ok: bool, e: Extent)
      requires Platform()
      modifies this`pages
      ensures Platform()
      ensures ok ==> e.length == length && Fits(old(pages), e, limit) && e !in old(pages)
      ensures !ok && reliable ==> forall base: nat :: !Fits(old(pages), Extent(base, length), limit)
      ensures pages == if ok then old(pages) + {e} else old(pages)
    {
      var base: nat := *;
      if reliable && exists b | 0 <= b <= limit :: Fits(pages, Extent(b, length), limit) {
        base :| 0 <= base <= limit && Fits(pages, Extent(base, length), limit);
      }
      e := Extent(base, length);
      ok := Fits(pages, e, limit);
      if ok {
        assert !e.Clear(e);
        pages := pages + {e};
      }
    }

    /** Frees once: the pages must be live, and no address that QEMU still holds may lie in them. */
    method FreePages(e: Extent)
      requires Platform()
      requires e in pages
      requires forall w {:trigger w in told} :: w in told ==> !e.Contains(w.value)
      modifies this`pages
      ensures Platform()
      ensures pages == old(pages) - {e}
    {
      pages := pages - {e};
      forall w | w in told
        ensures Live(pages, w.value)
      {
        var x :| x in old(pages) && x.Contains(w.value);
        assert x in pages;
      }
    }

    /** A failure that the caller cannot foresee. */
    method Chance() returns (ok: bool)
      ensures reliable ==> ok
    {
      ok := *;
      ok := ok || reliable;
    }

    method AllocatePool(what: PoolObject) returns (ok: bool)
      requires what !in pool
      modifies this`pool
      ensures pool == if ok then old(pool) + {what} else old(pool)
      ensures reliable ==> ok
    {
      ok := Chance();
      if ok {
        pool := pool + {what};
      }
    }

    method FreePool(what: PoolObject)
      requires what in pool
      modifies this`pool
      ensures pool == old(pool) - {what}
    {
      pool := pool - {what};
    }

    method InstallAcpiTable(address: nat, length: nat) returns (ok: bool, key: nat)
      modifies this`tables
      ensures ok ==> key !in old(tables) && tables == old(tables)[key := (address, length)]
      ensures !ok ==> tables == old(tables) && !reliable
    {
      key := *;
      if reliable {
        ghost var free := FreeKey(tables.Keys);
        key :| key !in tables;
      }
      ok := key !in tables;
      if ok {
        tables := tables[key := (address, length)];
      }
    }

    // ----- Pass zero -----

    method CollectAllocationsRestrictedTo32Bit(script: seq<Command>) returns (status: Status, names: set<string>)
      requires RestrictedNames !in pool
      modifies this`pool
      ensures status == Success ==> names == Restricted(script) && pool == old(pool) + {RestrictedNames}
      ensures status == Success ==>
                forall id :: id in names <==>
                             exists c <- script :: c.AddPointer? && c.pointerSize < 8 && c.pointeeFile == Terminated(id)
      ensures status != Success ==> pool == old(pool)
      ensures status != Success ==>
                || (status == OutOfResources && !reliable)
                || (status == ProtocolError
                && exists c <- script :: c.AddPointer? && c.pointerSize < 8 && c.pointeeFile.Unterminated?)
    {
      names := {};
      var ok := AllocatePool(RestrictedNames);
      if !ok {
        return OutOfResources, names;
      }
      for i := 0 to |script|
        invariant names == Restricted(script[..i])
        invariant forall c <- script[..i] :: c.AddPointer? && c.pointerSize < 8 ==> c.pointeeFile.Terminated?
        invariant pool == old(pool) + {RestrictedNames}
      {
        var c := script[i];
        assert script[..i + 1] == script[..i] + [c];
        if c.AddPointer? && c.pointerSize < 8 {
          if c.pointeeFile.Unterminated? {
            assert c in script;
            FreePool(RestrictedNames);
            return ProtocolError, {};
          }
          var inserted := Chance();
          if !inserted {
            FreePool(RestrictedNames);
            return OutOfResources, {};
          }
          names := names + {c.pointeeFile.id};
        }
      }
      assert script[..|script|] == script;
      status := Success;
    }

    /** Changes what a blob contains, or how it is marked; the allocations stay accounted for. */
    method UpdateBlob(id: string, blob: Blob)
      requires Valid() && id in tracker
      requires PagesOf(blob) == PagesOf(tracker[id]) && |blob.bytes| > 0
      modifies this`tracker
      ensures Valid() && tracker == old(tracker)[id := blob]
    {
      OwnsUpdated(pages, others, tracker, id, blob);
      tracker := tracker[id := blob];
    }

    method WriteFwCfg(item: u16, offset: nat, data: seq<byte>)
      requires Platform()
      modifies this`items
      ensures Platform()
      ensures items == WriteItem(old(items), item, offset, data)
    {
      items := WriteItem(items, item, offset, data);
    }

    /** Stores an address in a fw_cfg file; from here on QEMU holds it. */
    method Tell(w: Condensed, ghost e: Extent)
      requires Platform() && e in pages && e.Contains(w.value)
      requires w.FitsIn(items) && ValidPointerSize(w.size)
      modifies this`items, this`told
      ensures Platform() && told == old(told) + [w]
      ensures items == WriteItem(old(items), w.item, w.offset, w.Data())
    {
      WriteFwCfg(w.item, w.offset, w.Data());
      told := told + [w];
    }

    // ----- The commands of the first pass -----

    method ProcessCmdAllocate(c: Command, restricted: set<string>) returns (status: Status)
      requires Valid() && c.Allocate?
      modifies this`pages, this`tracker, this`blobStructs
      ensures Valid() && !Dead(status)
      ensures status == Success ==> Step(restricted, sizes, old(tracker), c, tracker)
      ensures status == Success ==> c.file.id in selector && tracker[c.file.id].bytes == items[selector[c.file.id]]
      ensures status == Success ==>
                var blob := tracker[c.file.id];
                blob.base % 4096 == 0 && (c.file.id in restricted ==> blob.base + |blob.bytes| <= 0x1_0000_0000)
      ensures status == Unsupported <==> c.file.Terminated? && c.alignment > 4096
      ensures status == Success ==>
                var blob := tracker[c.file.id];
                pages == old(pages) + {Extent(blob.base, (|blob.bytes| + 4095) / 4096 * 4096)}
      ensures status != Success ==> pages == old(pages)
      ensures status != Success ==>
                tracker == old(tracker) && Refused(restricted, sizes, Env(reliable, others), tracker, c, status)
    {
      hide Owns, PagesOk, NoDangling;
      OwnedPages(pages, others, tracker);
      if c.file.Unterminated? {
        return ProtocolError;
      }
      if c.alignment > EFI_PAGE_SIZE {
        return Unsupported;
      }
      if c.file.id !in sizes {
        return NotFound;
      }
      status := AllocateBlob(c.file.id, restricted);
    }

    /** The pages, the file in them and the BLOB structure; or none of these. */
    method AllocateBlob(id: string, restricted: set<string>) returns (status: Status)
      requires Valid() && id in sizes
      modifies this`pages, this`tracker, this`blobStructs
      ensures Valid()
      ensures status == Success || status == ServiceError || status == OutOfResources || status == ProtocolError
      ensures status == Success ==>
                && id !in old(tracker) && id in tracker && tracker == old(tracker)[id := tracker[id]]
                && NewBlob(restricted, sizes, id, tracker[id]) && tracker[id].bytes == items[selector[id]]
                && pages == old(pages) + {PagesOf(tracker[id])}
      ensures status != Success ==> tracker == old(tracker) && pages == old(pages)
      ensures status == ServiceError && reliable ==>
                NoPlace(old(pages), PageBytes(sizes[id]), if id in restricted then MAX_UINT32 + 1 else MAX_UINT64)
      ensures status == OutOfResources ==> !reliable
      ensures status == ProtocolError ==> id in tracker
    {
      hide Owns, PagesOk, NoDangling, NoPlace, PageBytes;
      var limit := if id in restricted then MAX_UINT32 else MAX_UINT64;
      var ok, e := AllocatePages(limit, PageBytes(sizes[id]));
      if !ok {
        if reliable {
          NothingFits(old(pages), PageBytes(sizes[id]), limit);
        }
        return ServiceError;
      }
      FreshPagesUntold(old(pages), e);
      var gotBlob := Chance();
      var inserted := Chance();
      if !gotBlob || !inserted || id in tracker {
        status := if gotBlob && id in tracker then ProtocolError else OutOfResources;
        FreePages(e);
        assert pages == old(pages);
        return;
      }
      var blob := Blob(e.base, items[selector[id]], true);
      Track(id, blob, old(pages));
      status := Success;
    }

    /** Links a BLOB structure for freshly allocated pages into the tracker. */
    method Track(id: string, blob: Blob, ghost before: Pages)
      requires Platform() && Owns(before, others, tracker) && blobStructs == tracker.Keys
      requires id !in tracker && |blob.bytes| > 0
      requires pages == before + {PagesOf(blob)} && PagesOf(blob) !in before
      modifies this`tracker, this`blobStructs
      ensures Valid()
      ensures tracker == old(tracker)[id := blob]
    {
      OwnsOneMore(before, others, tracker, id, blob);
      tracker, blobStructs := tracker[id := blob], blobStructs + {id};
    }

    /** QEMU holds no address in pages that have only just been allocated. */
    lemma FreshPagesUntold(before: Pages, e: Extent)
      requires NoDangling(before, told) && forall x :: x in before ==> e.Clear(x)
      ensures forall w {:trigger w in told} :: w in told ==> !e.Contains(w.value)
    {
      forall w | w in told
        ensures !e.Contains(w.value)
      {
        var x :| x in before && x.Contains(w.value);
        assert e.Clear(x);
      }
    }

    method ProcessCmdAddPointer(c: Command) returns (status: Status)
      requires Valid() && c.AddPointer?
      modifies this`tracker
      ensures Valid()
      ensures var v := AddPointerVerdict(old(tracker), c);
              if v.Accept? then status == Success && tracker == Relocate(old(tracker), c, v.value)
              else status == ProtocolError && tracker == old(tracker)
    {
      var verdict := CheckAddPointer(tracker, c);
      if !verdict.Accept? {
        return ProtocolError;
      }
      var pointer := tracker[c.pointerFile.id];
      var patched := Splice(pointer.bytes, c.pointerOffset, ToLE(verdict.value, c.pointerSize));
      UpdateBlob(c.pointerFile.id, pointer.(bytes := patched));
      status := Success;
    }

    method ProcessCmdAddChecksum(c: Command) returns (status: Status)
      requires Valid() && c.AddChecksum?
      modifies this`tracker
      ensures Valid()
      ensures if ChecksumRangeExists(old(tracker), c)
              then status == Success && tracker == WithChecksum(old(tracker), c)
              else status == ProtocolError && tracker == old(tracker)
      ensures status == Success ==>
                (tracker[c.file.id].bytes[c.resultOffset]
                 + Total(old(tracker)[c.file.id].bytes[c.start..c.start + c.length])) % 256 == 0
    {
      hide Owns, Total, PagesOk;
      if c.file.Unterminated? || c.file.id !in tracker {
        return ProtocolError;
      }
      var blob := tracker[c.file.id];
      if |blob.bytes| <= c.resultOffset || |blob.bytes| < c.length || |blob.bytes| - c.length < c.start {
        return ProtocolError;
      }
      assert blob.bytes[c.start..c.start + c.length] == ChecksumRange(tracker, c);
      var sum := CheckSum8(blob.bytes[c.start..c.start + c.length]);
      UpdateBlob(c.file.id, blob.(bytes := blob.bytes[c.resultOffset := sum]));
      status := Success;
    }

    /** The S3 record, if there is one, holds the writes that QEMU saw. */
    ghost predicate Recorded(s3: S3Context?)
      reads `told, s3, if s3 != null then {s3.writePointers} else {}
    {
      s3 != null ==> s3.Valid() && s3.Entries() == told
    }

    /** The record is extended before QEMU is told; the pointee is marked after. */
    method ProcessCmdWritePointer(c: Command, s3: S3Context?) returns (status: Status)
      requires Valid() && c.WritePointer? && Recorded(s3)
      modifies this`items, this`tracker, this`told
      modifies s3, if s3 != null then {s3.writePointers} else {}
      ensures Valid() && Recorded(s3)
      ensures status == if !WritePointerVerdict(old(tracker), sizes, c).Accept? then ProtocolError
                        else if s3 != null && old(s3.used) == s3.writePointers.Length then OutOfResources
                        else Success
      ensures status == Success ==>
                && tracker == Marked(old(tracker), c.pointeeFile.id)
                && Tells(selector, tracker, c, old(told), told, old(items), items)
      ensures status == Success ==> HoldsAddress(selector, old(tracker), c, items)
      ensures status != Success ==>
                tracker == old(tracker) && items == old(items) && told == old(told)
    {
      var verdict := CheckWritePointer(tracker, sizes, c);
      if !verdict.Accept? {
        return ProtocolError;
      }
      var item := selector[c.pointerFile.id];
      Owned(pages, others, tracker, c.pointeeFile.id);
      if s3 != null {
        var saved := s3.Save(item, c.pointerSize, c.pointerOffset, verdict.value);
        if !saved {
          return OutOfResources;
        }
      }
      var pointee := tracker[c.pointeeFile.id];
      var w := Condensed(item, c.pointerSize, c.pointerOffset, verdict.value);
      Tell(w, PagesOf(pointee));
      CarriedFits(selector, tracker, c, w);
      WriteReads(old(items), w);
      TellingReads(selector, tracker, c, w, items);
      UpdateBlob(c.pointeeFile.id, pointee.(hostsOnlyTableData := false));
      status := Success;
    }

    /** UndoCmdWritePointer: zeroes the pointer that the last address was stored in. */
    method UndoCmdWritePointer(c: Command)
      requires Valid() && |told| > 0
      requires Carries(selector, tracker, c, told[|told| - 1])
      modifies this`items, this`told
      ensures Valid()
      ensures told == old(told)[..|old(told)| - 1]
      ensures var w := old(told)[|old(told)| - 1];
              items == WriteItem(old(items), w.item, w.offset, ToLE(0, w.size))
    {
      WriteFwCfg(selector[c.pointerFile.id], c.pointerOffset, ToLE(0, c.pointerSize));
      told := told[..|told| - 1];
      forall w | w in told
        ensures Live(pages, w.value) && w.FitsIn(items) && ValidPointerSize(w.size)
      {
        assert w in old(told);
      }
    }

    // ----- The first pass -----

    method ProcessCommand(c: Command, restricted: set<string>, s3: S3Context?) returns (status: Status)
      requires Valid() && Recorded(s3)
      requires s3 != null ==> s3.used < s3.writePointers.Length
      modifies this`items, this`pages, this`tracker, this`blobStructs, this`told
      modifies s3, if s3 != null then {s3.writePointers} else {}
      ensures Valid() && Recorded(s3) && !Dead(status)
      ensures status == Success ==>
                && Step(restricted, sizes, old(tracker), c, tracker)
                && Tells(selector, tracker, c, old(told), told, old(items), items)
      ensures status != Success ==>
                tracker == old(tracker) && items == old(items) && told == old(told)
                  && Refused(restricted, sizes, Env(reliable, others), tracker, c, status)
    {
      hide Platform, Owns, Carries;
      match c
      case Allocate(_, _) =>
        status := ProcessCmdAllocate(c, restricted);
      case AddPointer(_, _, _, _) =>
        status := ProcessCmdAddPointer(c);
      case AddChecksum(_, _, _, _) =>
        status := ProcessCmdAddChecksum(c);
      case WritePointer(_, _, _, _, _) =>
        status := ProcessCmdWritePointer(c, s3);
      case Unknown =>
        status := Success;
    }

    /**
     Runs the script up to its end or its first failing command, k, and
     leaves behind a trace, the writes that QEMU saw, and the same in the record.
     The status tells why; the record always has room, so that a WritePointer
     fails only for its own sake.
     */
    method FirstPass(script: seq<Command>, restricted: set<string>, s3: S3Context?)
      returns (status: Status, subsetEnd: nat, ghost k: nat, ghost hist: seq<Tracker>)
      requires Valid() && Recorded(s3) && tracker == map[] && told == []
      requires s3 != null ==> |script| <= s3.writePointers.Length
      modifies this`items, this`pages, this`tracker, this`blobStructs, this`told
      modifies s3, if s3 != null then {s3.writePointers} else {}
      ensures Valid() && Recorded(s3) && !Dead(status)
      ensures k <= |script| && (status == Success <==> k == |script|)
      ensures Progress(selector, restricted, sizes, script, k, hist, tracker, told, old(items), items)
      ensures SubsetEnd(script, subsetEnd, k)
      ensures status != Success ==> Refused(restricted, sizes, Env(reliable, others), tracker, script[k], status)
    {
      hide Platform, Owns, Progress, Refused;
      subsetEnd, hist, status := 0, [map[]], Success;
      StartProgress(selector, restricted, sizes, script, items);
      for i := 0 to |script|
        invariant Valid() && Recorded(s3) && status == Success
        invariant Progress(selector, restricted, sizes, script, i, hist, tracker, told, old(items), items)
        invariant SubsetEnd(script, subsetEnd, i)
      {
        status, hist := NextCommand(script, i, restricted, s3, hist, old(items));
        if status != Success {
          k := i;
          return;
        }
        SubsetEndNext(script, subsetEnd, i);
        if script[i].WritePointer? {
          subsetEnd := i + 1;
        }
      }
      k := |script|;
    }

    /** One command of the first pass. */
    method NextCommand(script: seq<Command>, i: nat, restricted: set<string>, s3: S3Context?,
                       ghost hist: seq<Tracker>, ghost items0: Items)
      returns (status: Status, ghost hist': seq<Tracker>)
      requires Valid() && Recorded(s3) && i < |script| && (s3 != null ==> |script| <= s3.writePointers.Length)
      requires Progress(selector, restricted, sizes, script, i, hist, tracker, told, items0, items)
      modifies this`items, this`pages, this`tracker, this`blobStructs, this`told
      modifies s3, if s3 != null then {s3.writePointers} else {}
      ensures Valid() && Recorded(s3) && !Dead(status)
      ensures status == Success ==>
                Progress(selector, restricted, sizes, script, i + 1, hist', tracker, told, items0, items)
      ensures status != Success ==>
                && Progress(selector, restricted, sizes, script, i, hist', tracker, told, items0, items)
                && Refused(restricted, sizes, Env(reliable, others), tracker, script[i], status)
    {
      assert |told| == WriteCount(script, i) <= i;
      ghost var now, told0, before := tracker, told, items;
      hist' := hist;
      status := ProcessCommand(script[i], restricted, s3);
      if status == Success {
        OwnedBlobsWellPlaced(pages, others, tracker);
        Advance(selector, restricted, sizes, script, i, hist, now, tracker, told0, told, items0, before, items);
        hist' := hist + [tracker];
      }
    }

    // ----- Unwinding -----

    method UndoLast(script: seq<Command>, i: nat, ghost items0: Items, ghost ws: seq<Condensed>)
      requires Valid() && i < |script| && script[i].WritePointer?
      requires WritesOf(selector, tracker, script, i + 1, told)
      requires |told| <= |ws| && told == ws[..|told|] && Revoking(items0, ws, |told|, items)
      modifies this`items, this`told
      ensures Valid() && WritesOf(selector, tracker, script, i, told)
      ensures |told| <= |ws| && told == ws[..|told|] && Revoking(items0, ws, |told|, items)
    {
      WritesBefore(selector, tracker, script, i, told);
      ghost var n := |told| - 1;
      assert ws[n] == told[n] && told[n] in told;
      RevokeOne(items0, ws, n, items);
      UndoCmdWritePointer(script[i]);
    }

    /** Takes back every address that QEMU was given, the last one first. */
    method RollbackWritePointers(script: seq<Command>, subsetEnd: nat, ghost items0: Items)
      requires Valid() && subsetEnd <= |script|
      requires WritesOf(selector, tracker, script, subsetEnd, told) && items == WriteAll(items0, told)
      modifies this`items, this`told
      ensures Valid() && told == []
      ensures Revoked(items0, old(told), items)
    {
      var i: nat := subsetEnd;
      ghost var ws := told;
      StartRevoking(items0, ws);
      while i > 0
        invariant i <= subsetEnd && Valid()
        invariant WritesOf(selector, tracker, script, i, told)
        invariant |told| <= |ws| && told == ws[..|told|]
        invariant Revoking(items0, ws, |told|, items)
      {
        i := i - 1;
        if script[i].WritePointer? {
          UndoLast(script, i, items0, ws);
        }
      }
      DoneRevoking(items0, ws, items);
    }

    /** Releases one BLOB structure, and its pages unless they are to outlive the run. */
    method Untrack(id: string, failed: bool)
      requires Valid() && id in tracker
      requires forall w :: w in told && PagesOf(tracker[id]).Contains(w.value) ==> Kept(tracker[id], failed)
      modifies this`pages, this`tracker, this`blobStructs, this`others
      ensures Valid() && tracker == old(tracker) - {id}
      ensures others == old(others) + if Kept(old(tracker)[id], failed) then {PagesOf(old(tracker)[id])} else {}
    {
      var blob := tracker[id];
      OwnsOneLess(pages, others, tracker, id);
      if failed || blob.hostsOnlyTableData {
        FreePages(PagesOf(blob));
      } else {
        others := others + {PagesOf(blob)};
      }
      tracker, blobStructs := tracker - {id}, blobStructs - {id};
    }

    /**
     Takes the tracker apart. A blob stays only when the run succeeded and
     the blob was found to hold more than table data.
     */
    method TearDown(failed: bool)
      requires Valid()
      requires forall w, id :: w in told && id in tracker && PagesOf(tracker[id]).Contains(w.value) ==>
                                 Kept(tracker[id], failed)
      modifies this`pages, this`tracker, this`blobStructs, this`others
      ensures Valid() && tracker == map[]
      ensures pages == old(others) + Survivors(old(tracker), failed)
    {
      while tracker != map[]
        invariant Valid()
        invariant forall id :: id in tracker ==> id in old(tracker) && tracker[id] == old(tracker)[id]
        invariant others == old(others) + Survivors(old(tracker) - tracker.Keys, failed)
        decreases tracker.Keys
      {
        var id :| id in tracker;
        SurvivorsStep(old(tracker), tracker, id, failed);
        Untrack(id, failed);
      }
      assert old(tracker) - tracker.Keys == old(tracker);
      assert PageSet(tracker) == {};
    }

    // ----- The second pass -----

    /** Looks at the target of a pointer unless its address has been handled before. */
    method Process2ndPassCmdAddPointer(c: Command, keys: array<nat>, installed: nat, seen: set<nat>,
                                       ghost held: seq<(nat, nat)>, ghost tables0: Tables)
      returns (status: Status, installed': nat, seen': set<nat>, ghost held': seq<(nat, nat)>)
      requires Valid() && c.AddPointer? && FieldExists(tracker, c)
      requires keys.Length == INSTALLED_TABLES_MAX && installed <= keys.Length
      requires InstalledUnder(keys[..installed], held, tables0, tables)
      modifies this`tracker, this`tables, keys
      ensures Valid() && installed' <= keys.Length
      ensures InstalledUnder(keys[..installed'], held', tables0, tables)
      ensures status == Success || status == AssertHalt || status == OutOfResources || status == ServiceError
      ensures status == AssertHalt <==> !Points(old(tracker), c)
      ensures reliable ==> status != ServiceError
      ensures reliable && status == OutOfResources ==>
                var finding := FindingOf(old(tracker), c);
                installed == 128 && finding.Lead? && finding.target.Table? && finding.address !in seen
      ensures status == Success ==>
                Looked(FindingOf(old(tracker), c), old(tracker), seen, held, tracker, seen', held')
      ensures status != Success ==> tracker == old(tracker) && held' == held
    {
      installed', seen', held' := installed, seen, held;
      var pointee := tracker[c.pointeeFile.id];
      var value := FieldValue(tracker, c);
      if value < pointee.base || value >= pointee.base + |pointee.bytes| {
        return AssertHalt, installed', seen', held';
      }
      if value in seen {
        assert seen + {value} == seen;
        return Success, installed', seen', held';
      }
      var inserted := Chance();
      if !inserted {
        return OutOfResources, installed', seen', held';
      }
      var target := Inspect(pointee.bytes, value - pointee.base);
      assert FindingOf(tracker, c) == Lead(value, c.pointeeFile.id, target);
      status, installed', seen', held' :=
        Follow(c.pointeeFile.id, value, target, keys, installed, seen, held, tables0);
    }

    /** A new address: a table is installed, anything else that is not a root table marks its blob. */
    method Follow(id: string, value: nat, target: Target, keys: array<nat>, installed: nat, seen: set<nat>,
                  ghost held: seq<(nat, nat)>, ghost tables0: Tables)
      returns (status: Status, installed': nat, seen': set<nat>, ghost held': seq<(nat, nat)>)
      requires Valid() && id in tracker && value !in seen
      requires keys.Length == INSTALLED_TABLES_MAX && installed <= keys.Length
      requires InstalledUnder(keys[..installed], held, tables0, tables)
      modifies this`tracker, this`tables, keys
      ensures Valid() && installed' <= keys.Length
      ensures status == Success || status == OutOfResources || status == ServiceError
      ensures reliable ==> status != ServiceError && (status == OutOfResources ==> installed == 128 && target.Table?)
      ensures InstalledUnder(keys[..installed'], held', tables0, tables)
      ensures status == Success ==>
                Looked(Lead(value, id, target), old(tracker), seen, held, tracker, seen', held')
      ensures status != Success ==> tracker == old(tracker) && held' == held
    {
      installed', seen', held' := installed, seen + {value}, held;
      match target
      case RootTable =>
        return Success, installed', seen', held';
      case Opaque =>
        UpdateBlob(id, tracker[id].(hostsOnlyTableData := false));
        return Success, installed', seen', held';
      case Table(tableSize) =>
        status, installed' := InstallTable(value, tableSize, keys, installed, held, tables0);
        if status == Success {
          held' := held + [(value, tableSize)];
        }
    }

    /** Installs a table and keeps its key for a roll-back. */
    method InstallTable(address: nat, length: nat, keys: array<nat>, installed: nat,
                        ghost held: seq<(nat, nat)>, ghost tables0: Tables)
      returns (status: Status, installed': nat)
      requires keys.Length == INSTALLED_TABLES_MAX && installed <= keys.Length
      requires InstalledUnder(keys[..installed], held, tables0, tables)
      modifies this`tables, keys
      ensures status == Success || status == OutOfResources || status == ServiceError
      ensures reliable ==> status != ServiceError && (status == OutOfResources ==> installed == 128)
      ensures installed' <= keys.Length
      ensures InstalledUnder(keys[..installed'],
                             if status == Success then held + [(address, length)] else held, tables0, tables)
    {
      if installed == INSTALLED_TABLES_MAX {
        return OutOfResources, installed;
      }
      var ok, key := InstallAcpiTable(address, length);
      if !ok {
        return ServiceError, installed;
      }
      InstallOne(keys[..installed], held, tables0, old(tables), key, (address, length));
      keys[installed] := key;
      assert keys[..installed + 1] == old(keys[..installed]) + [key];
      return Success, installed + 1;
    }

    method SecondPass(script: seq<Command>, keys: array<nat>)
      returns (status: Status, installed: nat, ghost k: nat, ghost seen: set<nat>, ghost held: seq<(nat, nat)>)
      requires Valid() && keys.Length == INSTALLED_TABLES_MAX
      requires forall i :: 0 <= i < |script| && script[i].AddPointer? ==> FieldExists(tracker, script[i])
      modifies this`tracker, this`tables, keys
      ensures Valid() && installed <= keys.Length
      ensures InstalledUnder(keys[..installed], held, old(tables), tables)
      ensures status == Success || status == AssertHalt || status == OutOfResources || status == ServiceError
      ensures status == Success ==> k == |script| && AllPoint(script, old(tracker))
      ensures status == AssertHalt ==> !AllPoint(script, old(tracker))
      ensures reliable ==> status != ServiceError && (status == OutOfResources ==> TooManyTables(script, old(tracker)))
      ensures Scanned(Findings(script, old(tracker)), k, old(tracker), tracker, seen, held)
    {
      hide Owns, Coherent, WellPlaced, Looked, NoDangling, PagesOk, MarkedSince, FoundExactly, Reached, TooManyTables;
      installed, status, held := 0, Success, [];
      var addresses: set<nat> := {};
      OwnedBlobsWellPlaced(pages, others, tracker);
      ghost var f := Findings(script, tracker);
      FindingsCoherent(script, tracker);
      ScanStart(f, tracker);
      assert keys[..0] == [];
      for i := 0 to |script|
        invariant Valid() && installed <= keys.Length && status == Success
        invariant InstalledUnder(keys[..installed], held, old(tables), tables)
        invariant Scanned(f, i, old(tracker), tracker, addresses, held)
        invariant AllPointTo(script, i, old(tracker))
      {
        if script[i].AddPointer? {
          ghost var now, known, before := tracker, addresses, held;
          SameFinding(f, i, old(tracker), tracker, script[i]);
          status, installed, addresses, held :=
            Process2ndPassCmdAddPointer(script[i], keys, installed, addresses, held, old(tables));
          if status != Success {
            seen, k := known, i;
            if reliable && status == OutOfResources {
              InstalledSizes(keys[..installed], held, old(tables), tables);
              OneTooMany(script, i, old(tracker), now, known, held);
            }
            return;
          }
          LookStep(f, i, old(tracker), now, known, before, tracker, addresses, held);
        } else {
          SkipStep(f, i, old(tracker), tracker, addresses, held);
        }
      }
      seen, k := addresses, |script|;
    }

    /** Uninstalls what this run has installed, the last table first. */
    method UninstallAcpiTables(keys: array<nat>, installed: nat, ghost held: seq<(nat, nat)>, ghost tables0: Tables)
      requires installed <= keys.Length
      requires InstalledUnder(keys[..installed], held, tables0, tables)
      modifies this`tables
      ensures tables == tables0
    {
      hide InstalledUnder;
      var n: nat := installed;
      InstalledSizes(keys[..n], held, tables0, tables);
      assert held[..n] == held;
      while n > 0
        invariant n <= installed == |held|
        invariant InstalledUnder(keys[..n], held[..n], tables0, tables)
      {
        n := n - 1;
        ghost var ks, hs := keys[..n + 1], held[..n + 1];
        InstalledSizes(ks, hs, tables0, tables);
        UninstallOne(ks, hs, tables0, tables);
        assert ks[..n] == keys[..n] && hs[..n] == held[..n] && ks[n] == keys[n];
        tables := tables - {keys[n]};
      }
      NoneInstalled(held[..0], tables0, tables);
    }

    // ----- The whole run -----

    /** AllocateS3Context: a record of a positive size, made of two pool objects. */
    method AllocateS3Context(count: nat) returns (status: Status, s3: S3Context?)
      requires pool !! S3_RECORD
      modifies this`pool
      ensures status == InvalidParameter <==> count == 0
      ensures status == Success || status == InvalidParameter || (status == OutOfResources && !reliable)
      ensures status == Success ==>
                && s3 != null && fresh(s3) && fresh(s3.writePointers) && s3.Valid()
                && s3.Entries() == [] && s3.writePointers.Length == count
                && pool == old(pool) + S3_RECORD
      ensures status != Success ==> s3 == null && pool == old(pool)
    {
      s3 := null;
      if count == 0 {
        return InvalidParameter, s3;
      }
      var gotHead := AllocatePool(S3Head);
      if !gotHead {
        return OutOfResources, s3;
      }
      var gotArray := AllocatePool(S3Array);
      if !gotArray {
        FreePool(S3Head);
        return OutOfResources, s3;
      }
      s3 := new S3Context(count);
      status := Success;
    }

    method ReleaseS3Context()
      requires S3_RECORD <= pool
      modifies this`pool
      ensures pool == old(pool) - S3_RECORD
    {
      FreePool(S3Array);
      FreePool(S3Head);
    }

    /**
     AppendFwCfgBootScript, the callback: the opcodes of the record are appended and
     the record is released. If one cannot be saved, the firmware stops.
     */
    method AppendFwCfgBootScript(s3: S3Context) returns (ok: bool)
      requires s3.Valid() && S3_RECORD <= pool && forall w :: w in s3.Entries() ==> w.size <= 8
      modifies this`bootScript, this`pool
      ensures ok ==> bootScript == old(bootScript) + Opcodes(s3.Entries()) && pool == old(pool) - S3_RECORD
      ensures !ok ==> bootScript < old(bootScript) + Opcodes(s3.Entries()) && pool == old(pool) && !reliable
    {
      var scratch := new byte[8];
      var opcodes;
      ok, opcodes := s3.SaveOpcodes(scratch, reliable);
      bootScript := bootScript + opcodes;
      if ok {
        ReleaseS3Context();
      }
    }

    /** The boot script can be saved now: the library makes the call that it had put off. */
    method BootScriptReady() returns (ok: bool)
      requires queued != null && Waiting() && S3_RECORD <= pool
      modifies this`bootScript, this`pool, this`queued, this`pending
      ensures ok ==> bootScript == Resume() == old(Resume()) && Idle() && pool == old(pool) - S3_RECORD
      ensures !ok ==> bootScript < old(Resume()) && !reliable
    {
      ok := AppendFwCfgBootScript(queued);
      assert pending == [] ==> Opcodes(pending) == [];
      queued, pending := null, [];
    }

    /**
     TransferS3ContextToBootScript: the library calls back at once, or keeps the
     record until the boot script can be saved, or fails.
     */
    method TransferS3ContextToBootScript(s3: S3Context) returns (status: Status)
      requires Valid() && Recorded(s3) && S3_RECORD <= pool && Idle()
      modifies this`bootScript, this`pool, this`queued, this`pending
      ensures Valid() && Recorded(s3)
      ensures status == Success || status == ServiceError || status == DeadLoop
      ensures reliable ==> status == Success
      ensures !Dead(status) ==> HandedOver(s3, status, old(bootScript), old(pool))
      ensures status == DeadLoop ==> told != []
    {
      hide Owns;
      if s3.used == 0 {
        assert Opcodes(told) == [];
        ReleaseS3Context();
        return Success;
      }
      var atOnce: bool := *;
      var later := Chance();
      if atOnce {
        var ok := AppendFwCfgBootScript(s3);
        return if ok then Success else DeadLoop;
      }
      if later {
        queued, pending := s3, told;
        return Success;
      }
      return ServiceError;
    }

    /**
     The record after the last step: on success S3 resume repeats the writes, and the
     record is released or queued; on failure it is still the caller's.
     */
    ghost predicate HandedOver(s3: S3Context?, status: Status, script0: seq<Opcode>, pool0: set<PoolObject>)
      reads `told, `bootScript, `pool, `queued, `pending, queued, if queued != null then {queued.writePointers} else {}
    {
      && Waiting() && Custody(s3 != null, status, pool0)
      && Resume() == script0 + if status == Success && s3 != null then Opcodes(told) else []
    }

    ghost predicate Custody(s3Enabled: bool, status: Status, pool0: set<PoolObject>)
      reads `pool, `queued, `pending
    {
      if status == Success && s3Enabled then pool == pool0 - S3_RECORD + Handed() else Idle() && pool == pool0
    }

    /** From the end of the first pass to the label FreeKeys; a failure uninstalls what was installed. */
    method InstallTables(script: seq<Command>, s3: S3Context?)
      returns (status: Status, ghost k: nat, ghost seen: set<nat>, ghost newKeys: seq<nat>, ghost held: seq<(nat, nat)>)
      requires Valid() && Recorded(s3) && Idle()
      requires forall i :: 0 <= i < |script| && script[i].AddPointer? ==> FieldExists(tracker, script[i])
      requires KeyArray !in pool && SeenPointers !in pool && (s3 != null ==> S3_RECORD <= pool)
      modifies this`tracker, this`tables, this`bootScript, this`pool, this`queued, this`pending
      ensures !Dead(status) ==> Valid() && HandedOver(s3, status, old(bootScript), old(pool))
      ensures Installed(script, reliable, old(tracker), tracker, old(tables), tables, status, k, seen, newKeys, held)
      ensures status == DeadLoop ==> s3 != null && told != []
    {
      hide Platform, Owns, AllPoint, Scanned, Installed, Findings, FieldExists, Waiting, Recorded, Resume;
      k, seen, newKeys, held := 0, {}, [], [];
      NoneInstalledYet(script, tracker, tables);
      var gotKeys := AllocatePool(KeyArray);
      if !gotKeys {
        Unchanged(s3, OutOfResources);
        return OutOfResources, k, seen, newKeys, held;
      }
      var gotSeen := AllocatePool(SeenPointers);
      if !gotSeen {
        FreePool(KeyArray);
        Unchanged(s3, OutOfResources);
        return OutOfResources, k, seen, newKeys, held;
      }
      status, k, seen, newKeys, held := ScanAndFinish(script, s3);
      if !Dead(status) {
        FreePool(SeenPointers);
        FreePool(KeyArray);
        PoolBack(old(pool), Handed(), KeyArray, SeenPointers);
      }
    }

    /** The second pass, and what follows it. */
    method ScanAndFinish(script: seq<Command>, s3: S3Context?)
      returns (status: Status, ghost k: nat, ghost seen: set<nat>, ghost newKeys: seq<nat>, ghost held: seq<(nat, nat)>)
      requires Valid() && Recorded(s3) && Idle() && (s3 != null ==> S3_RECORD <= pool)
      requires forall i :: 0 <= i < |script| && script[i].AddPointer? ==> FieldExists(tracker, script[i])
      modifies this`tracker, this`tables, this`bootScript, this`pool, this`queued, this`pending
      ensures !Dead(status) ==> Valid() && HandedOver(s3, status, old(bootScript), old(pool))
      ensures Installed(script, reliable, old(tracker), tracker, old(tables), tables, status, k, seen, newKeys, held)
      ensures status == DeadLoop ==> s3 != null && told != []
    {
      hide Platform, Owns, AllPoint, Scanned, InstalledUnder, FieldExists, TooManyTables;
      var keys := new nat[INSTALLED_TABLES_MAX];
      assert s3 != null ==> s3.writePointers as object != keys as object;
      var installed: nat;
      status, installed, k, seen, held := SecondPass(script, keys);
      newKeys := keys[..installed];
      InstalledSizes(newKeys, held, old(tables), tables);
      if status != AssertHalt {
        status := FinishTables(keys, installed, s3, status, held, old(tables));
      }
    }

    /** The last step that may fail, and the label UninstallAcpiTables. */
    method FinishTables(keys: array<nat>, installed: nat, s3: S3Context?, scan: Status,
                        ghost held: seq<(nat, nat)>, ghost tables0: Tables) returns (status: Status)
      requires Valid() && Recorded(s3) && Idle() && installed <= keys.Length
      requires InstalledUnder(keys[..installed], held, tables0, tables)
      requires scan == Success || scan == OutOfResources || scan == ServiceError
      requires s3 != null ==> S3_RECORD <= pool
      modifies this`tables, this`bootScript, this`pool, this`queued, this`pending
      ensures Valid() && (status != DeadLoop ==> HandedOver(s3, status, old(bootScript), old(pool)))
      ensures status == Success || status == DeadLoop || status == OutOfResources || status == ServiceError
      ensures status == DeadLoop ==> scan == Success && s3 != null && told != []
      ensures status == Success ==> scan == Success && tables == old(tables)
      ensures reliable ==> status == scan
      ensures status != Success && status != DeadLoop ==> tables == tables0
    {
      status := scan;
      if status == Success && s3 != null {
        status := TransferS3ContextToBootScript(s3);
      }
      if status != Success && status != DeadLoop {
        UninstallAcpiTables(keys, installed, held, tables0);
      }
    }

    /**
     Success: the blobs that QEMU or other tables refer to stay, the rest is freed.
     An address in a blob is then allocated exactly if the blob stays.
     */
    method Settle(script: seq<Command>, ghost restricted: set<string>, ghost hist: seq<Tracker>)
      requires Valid() && Trace(script, restricted, sizes, hist)
      requires MarkedSince(Findings(script, hist[|script|]), |script|, hist[|script|], tracker)
      requires WritesOf(selector, hist[|script|], script, |script|, told)
      modifies this`pages, this`tracker, this`blobStructs, this`others
      ensures Valid() && tracker == map[]
      ensures pages == old(others) + SurvivingPages(script, hist[|script|])
      ensures TargetsLive(script, hist[|script|], pages)
    {
      forall w, id | w in told && id in tracker && PagesOf(tracker[id]).Contains(w.value)
        ensures Kept(tracker[id], false)
      {
        ToldBlobsAreMarked(selector, script, restricted, sizes, hist, tracker, told, pages, others, w, id);
      }
      SurvivorsAre(script, restricted, sizes, hist, tracker);
      TargetsLiveAfter(script, hist[|script|], tracker, pages, others);
      TearDown(false);
    }

    /** Failure: first QEMU's pointers are revoked, then every blob is freed. */
    method Unwind(script: seq<Command>, subsetEnd: nat, ghost items0: Items)
      requires Valid() && subsetEnd <= |script|
      requires WritesOf(selector, tracker, script, subsetEnd, told) && items == WriteAll(items0, told)
      modifies this`items, this`told, this`pages, this`tracker, this`blobStructs, this`others
      ensures Valid() && tracker == map[] && told == []
      ensures pages == old(others)
      ensures Revoked(items0, old(told), items)
    {
      RollbackWritePointers(script, subsetEnd, items0);
      TearDown(true);
    }

    /** The two passes; afterwards nothing has been released yet, but a failure has no tables installed. */
    method BothPasses(script: seq<Command>, restricted: set<string>, s3: S3Context?)
      returns (status: Status, subsetEnd: nat, ghost run: Run)
      requires Valid() && Recorded(s3) && tracker == map[] && told == [] && Idle()
      requires s3 != null ==> |script| <= s3.writePointers.Length
      requires KeyArray !in pool && SeenPointers !in pool && (s3 != null ==> S3_RECORD <= pool)
      modifies this`items, this`pages, this`tracker, this`blobStructs, this`told, this`tables
      modifies this`bootScript, this`pool, this`queued, this`pending
      modifies s3, if s3 != null then {s3.writePointers} else {}
      ensures Dead(status) ==>
                run.Halted(script, restricted, sizes, status) && (status == DeadLoop ==> s3 != null && !reliable)
      ensures !Dead(status) ==> Valid() && HandedOver(s3, status, old(bootScript), old(pool))
      ensures !Dead(status) ==>
                && run.Began(script, restricted, selector, sizes)
                && subsetEnd <= |script| && WritesOf(selector, tracker, script, subsetEnd, told)
                && told == run.writes && items == WriteAll(old(items), told)
      ensures status == Success ==>
                && run.Finished(script, restricted, selector, sizes, old(tables), tables)
                && MarkedSince(Findings(script, run.hist[|script|]), |script|, run.hist[|script|], tracker)
      ensures status != Success && !Dead(status) ==>
                && tables == old(tables)
                && run.Stopped(script, restricted, sizes, s3 != null, Env(reliable, others), status)
    {
      hide Platform, Owns, Progress, SubsetEnd, Refused, FieldExists, Installed, HandedOver, Findings, MarkedSince,
           WritesOf, Run.Began, Run.Finished, Run.Halted, Run.Stopped;
      ghost var k, hist;
      status, subsetEnd, k, hist := FirstPass(script, restricted, s3);
      ghost var t := tracker;
      if status != Success {
        run := Run(Linking, k, hist, told, [], []);
        AfterFirstPass(selector, restricted, sizes, script, k, hist, t, told, old(items), items, subsetEnd,
                       s3 != null, Env(reliable, others), status);
        Unchanged(s3, status);
        return;
      }
      FieldsAfterFirstPass(selector, restricted, sizes, script, hist, t, told, old(items), items);
      ghost var k2, seen, newKeys, held;
      status, k2, seen, newKeys, held := InstallTables(script, s3);
      run := Run(Installing, |script|, hist, told, newKeys, held);
      AfterBothPasses(selector, restricted, sizes, script, hist, t, told, old(items), items, subsetEnd, s3 != null,
                      Env(reliable, others), status, tracker, old(tables), tables, k2, seen, newKeys, held);
    }

    /** A run that gets no further than the first pass has nothing to hand over. */
    lemma Unchanged(s3: S3Context?, status: Status)
      requires Idle() && status != Success
      ensures HandedOver(s3, status, bootScript, pool)
    {
    }

    /** From the tracker's creation to its end: both passes, and the unwinding of a failure. */
    method RunScript(script: seq<Command>, restricted: set<string>, s3: S3Context?)
      returns (status: Status, ghost run: Run)
      requires Valid() && Recorded(s3) && tracker == map[] && told == [] && Idle()
      requires s3 != null ==> |script| <= s3.writePointers.Length
      requires TrackerHead !in pool && KeyArray !in pool && SeenPointers !in pool && (s3 != null ==> S3_RECORD <= pool)
      modifies this, s3, if s3 != null then {s3.writePointers} else {}
      ensures Ended(script, restricted, selector, sizes, s3 != null, reliable, old(Now()), Now(), status, run)
      ensures !Dead(status) ==> Valid() && Waiting() && tracker == map[] && Custody(s3 != null, status, old(pool))
    {
      hide Platform, Owns, Ended, Run.Stopped;
      var ok := AllocatePool(TrackerHead);
      if !ok {
        run := NOT_BEGUN;
        NoMemoryEnds(script, restricted, selector, sizes, s3 != null, Now());
        return OutOfResources, run;
      }
      PageSetEmpty(pages, others);
      status, run := RunTracked(script, restricted, s3);
      if !Dead(status) {
        FreePool(TrackerHead);
      }
    }

    method RunTracked(script: seq<Command>, restricted: set<string>, s3: S3Context?)
      returns (status: Status, ghost run: Run)
      requires Valid() && Recorded(s3) && tracker == map[] && told == [] && others == pages && Idle()
      requires s3 != null ==> |script| <= s3.writePointers.Length
      requires KeyArray !in pool && SeenPointers !in pool && (s3 != null ==> S3_RECORD <= pool)
      modifies this, s3, if s3 != null then {s3.writePointers} else {}
      ensures Ended(script, restricted, selector, sizes, s3 != null, reliable, old(Now()), Now(), status, run)
      ensures !Dead(status) ==> Valid() && Waiting() && tracker == map[] && Custody(s3 != null, status, old(pool))
    {
      hide Platform, Owns, Ended, Run.Began, Run.Finished, Run.Stopped, Run.Halted, MarkedSince, WritesOf, Waiting;
      var subsetEnd: nat;
      status, subsetEnd, run := BothPasses(script, restricted, s3);
      if Dead(status) {
        DeadEnds(script, restricted, selector, sizes, s3 != null, reliable, old(Now()), Now(), status, run);
      } else {
        Conclude(script, restricted, s3 != null, status, subsetEnd, run, old(Now()));
      }
    }

    /** Ends a run: keeps what is to survive a success, or unwinds a failure. */
    method Conclude(script: seq<Command>, ghost restricted: set<string>, ghost s3Enabled: bool, status: Status,
                    subsetEnd: nat, ghost run: Run, ghost s0: State)
      requires Valid() && run.Began(script, restricted, selector, sizes) && others == s0.pages && !Dead(status)
      requires subsetEnd <= |script| && WritesOf(selector, tracker, script, subsetEnd, told)
      requires told == run.writes && items == WriteAll(s0.items, told)
      requires Resume() == s0.resume + if status == Success && s3Enabled then Opcodes(told) else []
      requires status != Success ==>
                 && tables == s0.tables
                 && run.Stopped(script, restricted, sizes, s3Enabled, Env(reliable, s0.pages), status)
      requires status == Success ==>
                 && run.Finished(script, restricted, selector, sizes, s0.tables, tables)
                 && MarkedSince(Findings(script, run.hist[|script|]), |script|, run.hist[|script|], tracker)
      modifies this`items, this`told, this`pages, this`tracker, this`blobStructs, this`others
      ensures Valid() && tracker == map[]
      ensures Ended(script, restricted, selector, sizes, s3Enabled, reliable, s0, Now(), status, run)
    {
      hide Platform, Owns, Trace, WritesOf, Run.Began, Run.Finished, Run.Stopped, MarkedSince;
      if status != Success {
        Unwind(script, subsetEnd, s0.items);
        run.FailedIf(script, restricted, selector, sizes, s0, Now());
      } else {
        run.FinishedTrace(script, restricted, selector, sizes, s0.tables, tables);
        Settle(script, restricted, run.hist);
        run.SucceededIf(script, restricted, selector, sizes, s3Enabled, s0, Now());
      }
    }

    /** Sizes the S3 record for a script made of WritePointer commands only, and runs the script with it. */
    method RunWithRecord(script: seq<Command>, restricted: set<string>, s3Enabled: bool)
      returns (status: Status, ghost run: Run)
      requires Valid() && tracker == map[] && told == [] && Idle()
      requires pool !! {S3Head, S3Array, TrackerHead, KeyArray, SeenPointers}
      modifies this
      ensures Ended(script, restricted, selector, sizes, s3Enabled, reliable, old(Now()), Now(), status, run)
      ensures !Dead(status) ==> Valid() && Waiting() && tracker == map[] && pool == old(pool) + Handed()
      ensures status != Success && !Dead(status) ==> Idle()
      ensures s3Enabled && script == [] ==> status == InvalidParameter
    {
      hide Platform, Owns, Ended;
      if !s3Enabled {
        status, run := RunScript(script, restricted, null);
        return;
      }
      var s3;
      status, s3 := AllocateS3Context(|script|);
      if status != Success {
        run := NOT_BEGUN;
        NotBegunEnds(script, restricted, selector, sizes, s3Enabled, reliable, Now(), status);
        return;
      }
      status, run := RunScript(script, restricted, s3);
      if status != Success && !Dead(status) {
        ReleaseS3Context();
      }
    }

    /**
     InstallQemuFwCfgTables, from the copy of the script on. A failed run
     leaves nothing behind, and its status tells why it failed; a successful one
     leaves no address dangling that QEMU holds, and a relocated pointer leads to
     allocated memory exactly if its pointee survives. An ASSERT does not fail if
     every field ends as the pointer that it was to be; a field aimed elsewhere
     afterwards rules out success.
     */
    method InstallQemuFwCfgTables(script: seq<Command>, s3Enabled: bool) returns (status: Status, ghost run: Run)
      requires Valid() && tracker == map[] && told == [] && pool == {} && Idle()
      modifies this
      ensures status == Success ==>
                run.Succeeded(script, Restricted(script), selector, sizes, s3Enabled, old(Now()), Now())
      ensures status != Success && !Dead(status) ==>
                && run.Failed(script, Restricted(script), selector, sizes, old(Now()), Now()) && Idle()
                && run.Stopped(script, Restricted(script), sizes, s3Enabled, Env(reliable, old(pages)), status)
      ensures Dead(status) ==>
                && run.Halted(script, Restricted(script), sizes, status)
                && (status == DeadLoop ==> s3Enabled && !reliable)
      ensures !Dead(status) ==> Valid() && Waiting() && tracker == map[] && pool == Handed() && NoDangling(pages, told)
      ensures status == Success ==> AllTold(selector, run.hist[run.k], script, items, pages)
      ensures status == Success && s3Enabled ==> AllToldAtResume(selector, run.hist[run.k], script, Now())
      ensures AllAimed(script) ==> status != AssertHalt
      ensures SomeMisaimed(script) ==> status != Success
      ensures s3Enabled && script == [] ==> status == InvalidParameter || status == OutOfResources
      // no run stops for want of room in a 4-byte pointer whose pointee pass zero has collected
      ensures status != Success && !Dead(status) && run.stage == Linking && Narrow(script, script[run.k]) ==>
                !TooWide(sizes, run.hist[run.k], script[run.k])
    {
      hide Owns, Run.Succeeded, Run.Failed, Run.Halted, Run.Stopped, AllAimed, SomeMisaimed, Narrow, TooWide, AllTold,
           AllToldAtResume;
      var ok := AllocatePool(ScriptCopy);
      if !ok {
        status, run := OutOfResources, NOT_BEGUN;
        NoMemoryEnds(script, Restricted(script), selector, sizes, s3Enabled, Now());
      } else {
        status, run := RunCopied(script, s3Enabled);
        if !Dead(status) {
          FreePool(ScriptCopy);
        }
      }
      Consequences(script, selector, sizes, s3Enabled, reliable, old(Now()), Now(), status, run);
      if status == Success {
        ToldAfterRun(script, Restricted(script), selector, sizes, s3Enabled, old(Now()), Now(), run);
      }
    }

    /** Pass zero, and the run with the names that it collects. */
    method RunCopied(script: seq<Command>, s3Enabled: bool) returns (status: Status, ghost run: Run)
      requires Valid() && tracker == map[] && told == [] && pool == {ScriptCopy} && Idle()
      modifies this
      ensures Ended(script, Restricted(script), selector, sizes, s3Enabled, reliable, old(Now()), Now(), status, run)
      ensures !Dead(status) ==> Valid() && Waiting() && tracker == map[] && pool == {ScriptCopy} + Handed()
      ensures status != Success && !Dead(status) ==> Idle()
      ensures s3Enabled && script == [] ==> status == InvalidParameter || status == OutOfResources
    {
      hide Platform, Owns, Ended;
      var names;
      status, names := CollectAllocationsRestrictedTo32Bit(script);
      if status != Success {
        run := NOT_BEGUN;
        NotBegunEnds(script, Restricted(script), selector, sizes, s3Enabled, reliable, Now(), status);
        return;
      }
      status, run := RunWithRecord(script, names, s3Enabled);
      if !Dead(status) {
        FreePool(RestrictedNames);
      }
    }
  }

  /** What the script alone says about the outcome of a run. */
  lemma Consequences(script: seq<Command>, directory: map<string, u16>, sizes: map<string, nat>, s3Enabled: bool,
                     reliable: bool, s0: State, s: State, status: Status, run: Run)
    requires Ended(script, Restricted(script), directory, sizes, s3Enabled, reliable, s0, s, status, run)
    ensures AllAimed(script) ==> status != AssertHalt
    ensures SomeMisaimed(script) ==> status != Success
    ensures status != Success && !Dead(status) && run.stage == Linking && Narrow(script, script[run.k]) ==>
              !TooWide(sizes, run.hist[run.k], script[run.k])
  {
    if status == AssertHalt {
      HaltedMeansNotAimed(script, Restricted(script), sizes, run);
    } else if status == Success {
      FinishedMeansNotMisaimed(script, Restricted(script), directory, sizes, s0.tables, s.tables, run);
    } else if !Dead(status) && run.stage == Linking && Narrow(script, script[run.k]) {
      NeverUnrepresentable(script, directory, sizes, run);
    }
  }
}
