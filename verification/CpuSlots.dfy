/**
 The bookkeeping of CpuHotplugSmm/CpuHotplug.c: APIC IDs in processor slots, and
 the QEMU selectors of processors that are to be ejected at SMI exit.
 */
module CpuSlots {
  import opened Words
  import opened CpuEvents
  import CpuEject

  const EMPTY := 0xFFFF_FFFF_FFFF_FFFF    // MAX_UINT64 in CPU_HOT_PLUG_DATA.ApicId
  const INVALID := CpuEject.INVALID

  /** Outcomes of handling one batch; the last two are errors handed through from services. */
  datatype Result = Done | OutOfResources | AlreadyStarted | AddFailed | RemoveFailed

  /** The first slot that holds x, or the number of slots. */
  function IndexOf(slots: seq<int>, x: int): (k: nat)
    ensures k <= |slots|
    ensures k < |slots| ==> slots[k] == x
    ensures forall i :: 0 <= i < k ==> slots[i] != x
  {
    if slots == [] || slots[0] == x then 0 else 1 + IndexOf(slots[1..], x)
  }

  /** Occupied slots hold different APIC IDs. */
  ghost predicate Distinct(slots: seq<int>) {
    forall i, j :: 0 <= i < j < |slots| && slots[i] != EMPTY ==> slots[i] != slots[j]
  }

  /** A processor whose ejection is pending has given up its slot. */
  ghost predicate StashedAreEmpty(slots: seq<int>, sels: seq<int>) {
    |slots| == |sels| && forall p :: 0 <= p < |sels| && sels[p] != INVALID ==> slots[p] == EMPTY
  }

  // ----- Hot-add -----

  /** Each new CPU goes to the least empty slot; fails tells which CPUs cannot be relocated or added. */
  function HotAdd(slots: seq<int>, ids: seq<u32>, fails: u32 -> bool): (r: (seq<int>, Result))
    ensures |r.0| == |slots|
    decreases |ids|
  {
    if ids == [] then (slots, Done)
    else if ids[0] in slots then HotAdd(slots, ids[1..], fails)
    else
      var k := IndexOf(slots, EMPTY);
      if k == |slots| then (slots, OutOfResources)
      else if fails(ids[0]) then (slots, AddFailed)
      else HotAdd(slots[k := ids[0]], ids[1..], fails)
  }

  /**
   Slots stay distinct, known CPUs stay where they are, nothing but the
   given CPUs comes in, and after success all of them are in.
   */
  lemma {:induction false} HotAddKeeps(slots: seq<int>, ids: seq<u32>, fails: u32 -> bool)
    requires Distinct(slots)
    ensures var (slots', result) := HotAdd(slots, ids, fails);
            && Distinct(slots')
            && (forall p :: 0 <= p < |slots| && slots[p] != EMPTY ==> slots'[p] == slots[p])
            && (forall p :: 0 <= p < |slots| && slots'[p] != slots[p] ==> slots'[p] in ids)
            && (result == Done ==> forall id :: id in ids ==> id in slots')
            && (result == OutOfResources ==> EMPTY !in slots')
            && result != AlreadyStarted && result != RemoveFailed
    decreases |ids|
  {
    if ids != [] {
      var rest := ids[1..];
      assert forall id :: id in ids <==> id == ids[0] || id in rest;
      if ids[0] in slots {
        HotAddKeeps(slots, rest, fails);
        var p :| 0 <= p < |slots| && slots[p] == ids[0];
        assert HotAdd(slots, rest, fails).0[p] == ids[0];
      } else {
        var k := IndexOf(slots, EMPTY);
        if k < |slots| && !fails(ids[0]) {
          HotAddKeeps(slots[k := ids[0]], rest, fails);
          assert HotAdd(slots[k := ids[0]], rest, fails).0[k] == ids[0];
        }
      }
    }
  }

  /**
   How far the batch got, and exactly what has become of the slots: the first i CPUs
   are known now. The new ones among them are in slots that were empty, with no empty
   slot left before them, in the order in which they come in the batch.
   */
  ghost predicate Added(slots: seq<int>, ids: seq<u32>, fails: u32 -> bool, slots': seq<int>, i: nat) {
    && i <= |ids| && |slots'| == |slots|
    && (forall j :: 0 <= j < i ==> ids[j] in slots')
    && (forall p :: 0 <= p < |slots| && slots'[p] != slots[p] ==>
          slots[p] == 0xFFFF_FFFF_FFFF_FFFF && slots'[p] in ids[..i] && !fails(slots'[p]))
    && (forall p, q :: 0 <= p < q < |slots| && slots[p] == 0xFFFF_FFFF_FFFF_FFFF && slots'[q] != slots[q] ==>
          slots'[p] != slots[p] && Sooner(ids, slots'[p], slots'[q]))
  }

  /** x comes in the batch before y does. */
  ghost predicate Sooner(ids: seq<u32>, x: int, y: int) {
    exists j :: 0 <= j < |ids| && ids[j] == x && y !in ids[..j + 1]
  }

  /**
   Hot-add stops only at a CPU that is not known: one that fails, while there is
   still an empty slot, or any if there is none.
   */
  lemma {:induction false} HotAddExact(slots: seq<int>, ids: seq<u32>, fails: u32 -> bool) returns (i: nat)
    requires Distinct(slots) && forall p :: 0 <= p < |slots| && slots[p] != EMPTY ==> 0 <= slots[p] < 0x1_0000_0000
    ensures var (slots', result) := HotAdd(slots, ids, fails);
            && (forall p :: 0 <= p < |slots| && slots'[p] != EMPTY ==> 0 <= slots'[p] < 0x1_0000_0000)
            && Added(slots, ids, fails, slots', i)
            && (result == Done <==> i == |ids|)
            && (result == OutOfResources <==>
                  i < |ids| && ids[i] !in slots' && 0xFFFF_FFFF_FFFF_FFFF !in slots')
            && (result == AddFailed <==>
                  i < |ids| && ids[i] !in slots' && 0xFFFF_FFFF_FFFF_FFFF in slots' && fails(ids[i]))
    decreases |ids|
  {
    hide Added, Distinct;
    i := 0;
    HotAddKeeps(slots, ids, fails);
    if ids == [] {
      NoneAdded(slots, ids, fails);
    } else if ids[0] in slots {
      i := HotAddExact(slots, ids[1..], fails);
      AddedKnown(slots, ids, fails, HotAdd(slots, ids, fails).0, i);
      i := i + 1;
    } else {
      var k := IndexOf(slots, EMPTY);
      if k == |slots| || fails(ids[0]) {
        NoneAdded(slots, ids, fails);
      } else {
        AddedDistinct(slots, k, ids[0]);
        i := HotAddExact(slots[k := ids[0]], ids[1..], fails);
        AddedOne(slots, ids, fails, HotAdd(slots, ids, fails).0, i, k);
        i := i + 1;
      }
    }
  }

  lemma AddedDistinct(slots: seq<int>, k: nat, id: u32)
    requires Distinct(slots) && k < |slots| && id !in slots
    ensures Distinct(slots[k := id])
  {
  }

  lemma NoneAdded(slots: seq<int>, ids: seq<u32>, fails: u32 -> bool)
    ensures Added(slots, ids, fails, slots, 0)
  {
  }

  lemma SoonerStill(ids: seq<u32>, x: int, y: int)
    requires ids != [] && y != ids[0] && Sooner(ids[1..], x, y)
    ensures Sooner(ids, x, y)
  {
    var j :| 0 <= j < |ids[1..]| && ids[1..][j] == x && y !in ids[1..][..j + 1];
    assert ids[..j + 2] == [ids[0]] + ids[1..][..j + 1];
    assert ids[j + 1] == x;
  }

  /** A CPU that is known already is passed over. */
  lemma AddedKnown(slots: seq<int>, ids: seq<u32>, fails: u32 -> bool, slots': seq<int>, i: nat)
    requires ids != [] && ids[0] in slots && Added(slots, ids[1..], fails, slots', i) && Distinct(slots')
    ensures Added(slots, ids, fails, slots', i + 1)
  {
    assert ids[..i + 1] == [ids[0]] + ids[1..][..i];
    var r :| 0 <= r < |slots| && slots[r] == ids[0];
    assert slots'[r] == ids[0];
    forall j | 0 <= j < i + 1
      ensures ids[j] in slots'
    {
      assert j > 0 ==> ids[j] == ids[1..][j - 1];
    }
    forall p, q | 0 <= p < q < |slots| && slots[p] == 0xFFFF_FFFF_FFFF_FFFF && slots'[q] != slots[q]
      ensures slots'[p] != slots[p] && Sooner(ids, slots'[p], slots'[q])
    {
      SoonerStill(ids, slots'[p], slots'[q]);
    }
  }

  /** A new CPU goes to the first empty slot; those after it are added behind. */
  lemma AddedOne(slots: seq<int>, ids: seq<u32>, fails: u32 -> bool, slots': seq<int>, i: nat, k: nat)
    requires ids != [] && k < |slots| && slots[k] == EMPTY && !fails(ids[0]) && Distinct(slots')
    requires forall p :: 0 <= p < k ==> slots[p] != EMPTY
    requires Added(slots[k := ids[0]], ids[1..], fails, slots', i)
    ensures Added(slots, ids, fails, slots', i + 1)
  {
    var slots1 := slots[k := ids[0]];
    assert ids[..i + 1] == [ids[0]] + ids[1..][..i];
    assert slots'[k] == ids[0];
    forall j | 0 <= j < i + 1
      ensures ids[j] in slots'
    {
      assert j > 0 ==> ids[j] == ids[1..][j - 1];
    }
    forall p, q | 0 <= p < q < |slots| && slots[p] == 0xFFFF_FFFF_FFFF_FFFF && slots'[q] != slots[q]
      ensures slots'[p] != slots[p] && Sooner(ids, slots'[p], slots'[q])
    {
      assert p >= k && slots1[q] == slots[q] && slots'[q] != ids[0];
      if p == k {
        assert ids[..1] == [ids[0]];
      } else {
        SoonerStill(ids, slots'[p], slots'[q]);
      }
    }
  }

  // ----- Unplug -----

  datatype Unplugging = Unplugging(slots: seq<int>, sels: seq<int>, result: Result, ejects: nat)

  function UnplugAll(slots: seq<int>, sels: seq<int>, ids: seq<u32>, selectors: seq<nat>,
                     fails: u32 -> bool): (r: Unplugging)
    requires |slots| == |sels| && |ids| == |selectors|
    ensures |r.slots| == |r.sels| == |slots|
    decreases |ids|
  {
    if ids == [] then Unplugging(slots, sels, Done, 0)
    else
      var p := IndexOf(slots, ids[0]);
      if p == |slots| then UnplugAll(slots, sels, ids[1..], selectors[1..], fails)
      else if fails(ids[0]) then Unplugging(slots, sels, RemoveFailed, 0)
      else if sels[p] != INVALID then Unplugging(slots[p := EMPTY], sels, AlreadyStarted, 0)
      else
        var r := UnplugAll(slots[p := EMPTY], sels[p := selectors[0]], ids[1..], selectors[1..], fails);
        r.(ejects := r.ejects + 1)
  }

  /**
   When no occupied slot has an ejection pending to begin with, the "this
   should never happen" case does not; and the three-way mapping is kept: exactly
   the slots that were emptied carry a selector, the one that came with their APIC ID.
   */
  lemma {:induction false} UnplugKeeps(slots: seq<int>, sels: seq<int>, ids: seq<u32>, selectors: seq<nat>,
                                       fails: u32 -> bool)
    requires StashedAreEmpty(slots, sels) && Distinct(slots) && |ids| == |selectors|
    ensures var r := UnplugAll(slots, sels, ids, selectors, fails);
            && r.result != AlreadyStarted
            && StashedAreEmpty(r.slots, r.sels) && Distinct(r.slots)
            && (forall p :: 0 <= p < |slots| ==>
                  if r.slots[p] == slots[p] then r.sels[p] == sels[p]
                  else r.slots[p] == EMPTY
                       && exists i :: 0 <= i < |ids| && ids[i] == slots[p] && r.sels[p] == selectors[i])
            && (r.result == Done ==> forall id :: id in ids ==> id !in r.slots)
    decreases |ids|
  {
    if ids != [] {
      var rest, more := ids[1..], selectors[1..];
      assert forall i :: 0 <= i < |rest| ==> rest[i] == ids[i + 1] && more[i] == selectors[i + 1];
      var p := IndexOf(slots, ids[0]);
      if p == |slots| {
        UnplugKeeps(slots, sels, rest, more, fails);
      } else if !fails(ids[0]) {
        assert slots[p] != EMPTY;
        UnplugKeeps(slots[p := EMPTY], sels[p := selectors[0]], rest, more, fails);
      }
    }
  }

  /** s is the selector that comes with x where x comes first. */
  ghost predicate FirstSelector(ids: seq<u32>, selectors: seq<nat>, x: int, s: int)
    requires |ids| == |selectors|
  {
    exists j :: 0 <= j < |ids| && ids[j] == x && x !in ids[..j] && selectors[j] == s
  }

  /** Exactly the slots of the first i CPUs have been emptied, and carry their selectors. */
  ghost predicate Removed(slots: seq<int>, sels: seq<int>, ids: seq<u32>, selectors: seq<nat>, fails: u32 -> bool,
                          slots': seq<int>, sels': seq<int>, i: nat)
    requires |ids| == |selectors|
  {
    && i <= |ids| && |slots'| == |slots| == |sels| == |sels'|
    && (forall j :: 0 <= j < i ==> ids[j] !in slots')
    && (forall p :: 0 <= p < |slots| ==>
          if slots[p] in ids[..i] then
            && slots'[p] == 0xFFFF_FFFF_FFFF_FFFF && !fails(slots[p])
            && FirstSelector(ids, selectors, slots[p], sels'[p])
          else slots'[p] == slots[p] && sels'[p] == sels[p])
  }

  /** The removal stops only at a known CPU that fails; the handler is wanted exactly if a slot has been emptied. */
  lemma {:induction false} UnplugExact(slots: seq<int>, sels: seq<int>, ids: seq<u32>, selectors: seq<nat>,
                                       fails: u32 -> bool) returns (i: nat)
    requires |slots| == |sels| && StashedAreEmpty(slots, sels) && Distinct(slots) && |ids| == |selectors|
    ensures var r := UnplugAll(slots, sels, ids, selectors, fails);
            && Removed(slots, sels, ids, selectors, fails, r.slots, r.sels, i)
            && (r.result == Done <==> i == |ids|)
            && (r.result == RemoveFailed <==> i < |ids|)
            && (i < |ids| ==> ids[i] in r.slots && fails(ids[i]))
            && (r.ejects > 0 <==> r.slots != slots)
    decreases |ids|
  {
    hide Removed, Distinct, StashedAreEmpty;
    i := 0;
    if ids == [] {
      NoneRemoved(slots, sels, ids, selectors, fails);
    } else {
      var p := IndexOf(slots, ids[0]);
      if p == |slots| {
        i := UnplugExact(slots, sels, ids[1..], selectors[1..], fails);
        var r := UnplugAll(slots, sels, ids, selectors, fails);
        RemovedUnknown(slots, sels, ids, selectors, fails, r.slots, r.sels, i);
        i := i + 1;
      } else if fails(ids[0]) {
        NoneRemoved(slots, sels, ids, selectors, fails);
      } else {
        StashedNow(slots, sels, p, selectors[0]);
        i := UnplugExact(slots[p := EMPTY], sels[p := selectors[0]], ids[1..], selectors[1..], fails);
        var r := UnplugAll(slots, sels, ids, selectors, fails);
        RemovedOne(slots, sels, ids, selectors, fails, r.slots, r.sels, i, p);
        i := i + 1;
      }
    }
  }

  lemma StashedNow(slots: seq<int>, sels: seq<int>, p: nat, selector: nat)
    requires StashedAreEmpty(slots, sels) && Distinct(slots) && p < |slots| && slots[p] != EMPTY
    ensures sels[p] == INVALID
    ensures StashedAreEmpty(slots[p := EMPTY], sels[p := selector]) && Distinct(slots[p := EMPTY])
  {
  }

  lemma NoneRemoved(slots: seq<int>, sels: seq<int>, ids: seq<u32>, selectors: seq<nat>, fails: u32 -> bool)
    requires |slots| == |sels| && |ids| == |selectors|
    ensures Removed(slots, sels, ids, selectors, fails, slots, sels, 0)
  {
  }

  lemma FirstStill(ids: seq<u32>, selectors: seq<nat>, x: int, s: int)
    requires |ids| == |selectors| && ids != [] && x != ids[0] && FirstSelector(ids[1..], selectors[1..], x, s)
    ensures FirstSelector(ids, selectors, x, s)
  {
    var j :| 0 <= j < |ids[1..]| && ids[1..][j] == x && x !in ids[1..][..j] && selectors[1..][j] == s;
    assert ids[..j + 1] == [ids[0]] + ids[1..][..j];
    assert ids[j + 1] == x && selectors[j + 1] == s;
  }

  lemma RemovedUnknown(slots: seq<int>, sels: seq<int>, ids: seq<u32>, selectors: seq<nat>, fails: u32 -> bool,
                       slots': seq<int>, sels': seq<int>, i: nat)
    requires |ids| == |selectors| && ids != [] && ids[0] !in slots
    requires Removed(slots, sels, ids[1..], selectors[1..], fails, slots', sels', i)
    ensures Removed(slots, sels, ids, selectors, fails, slots', sels', i + 1)
  {
    assert ids[..i + 1] == [ids[0]] + ids[1..][..i];
    forall j | 0 <= j < i + 1
      ensures ids[j] !in slots'
    {
      assert j > 0 ==> ids[j] == ids[1..][j - 1];
      assert forall p :: 0 <= p < |slots| && slots'[p] == ids[j] ==> slots'[p] == slots[p];
    }
    forall p | 0 <= p < |slots| && slots[p] in ids[..i + 1]
      ensures FirstSelector(ids, selectors, slots[p], sels'[p])
    {
      FirstStill(ids, selectors, slots[p], sels'[p]);
    }
  }

  lemma RemovedOne(slots: seq<int>, sels: seq<int>, ids: seq<u32>, selectors: seq<nat>, fails: u32 -> bool,
                   slots': seq<int>, sels': seq<int>, i: nat, p: nat)
    requires |ids| == |selectors| && ids != [] && p < |slots| == |sels| && slots[p] == ids[0] && !fails(ids[0])
    requires Distinct(slots)
    requires Removed(slots[p := EMPTY], sels[p := selectors[0]], ids[1..], selectors[1..], fails, slots', sels', i)
    ensures Removed(slots, sels, ids, selectors, fails, slots', sels', i + 1) && slots'[p] != slots[p]
  {
    var slots1 := slots[p := EMPTY];
    assert ids[..i + 1] == [ids[0]] + ids[1..][..i];
    assert slots'[p] == EMPTY && sels'[p] == selectors[0];
    forall j | 0 <= j < i + 1
      ensures ids[j] !in slots'
    {
      assert j > 0 ==> ids[j] == ids[1..][j - 1];
      assert forall q :: 0 <= q < |slots| && slots'[q] == ids[j] ==> slots'[q] == slots1[q];
    }
    assert ids[..0] == [];
    assert FirstSelector(ids, selectors, slots[p], sels'[p]);
    forall q | 0 <= q < |slots| && q != p
      ensures slots[q] in ids[..i + 1] <==> slots1[q] in ids[1..][..i]
      ensures slots[q] in ids[..i + 1] ==> FirstSelector(ids, selectors, slots[q], sels'[q])
    {
      assert slots1[q] == slots[q] && slots[q] != ids[0];
      if slots[q] in ids[..i + 1] {
        FirstStill(ids, selectors, slots[q], sels'[q]);
      }
    }
  }

  function Never(): u32 -> bool {
    (x: u32) => false
  }

  /** Exactly when EFI_ALREADY_STARTED is possible: some occupied slot has an ejection pending already. */
  lemma AlreadyStartedIff(slots: seq<int>, sels: seq<int>, selector: nat)
    requires |slots| == |sels| && Distinct(slots)
    requires forall p :: 0 <= p < |slots| && slots[p] != EMPTY ==> 0 <= slots[p] < 0x1_0000_0000
    ensures !StashedAreEmpty(slots, sels) <==>
            exists id: u32 :: UnplugAll(slots, sels, [id], [selector], Never()).result == AlreadyStarted
  {
    if StashedAreEmpty(slots, sels) {
      forall id: u32
        ensures UnplugAll(slots, sels, [id], [selector], Never()).result != AlreadyStarted
      {
        UnplugKeeps(slots, sels, [id], [selector], Never());
      }
    } else {
      var p :| 0 <= p < |slots| && sels[p] != INVALID && slots[p] != EMPTY;
      var id: u32 := slots[p];
      assert IndexOf(slots, id) == p;
      assert UnplugAll(slots, sels, [id], [selector], Never()).result == AlreadyStarted;
    }
  }

  lemma {:induction false} NoEjectsNoChange(slots: seq<int>, sels: seq<int>, ids: seq<u32>, selectors: seq<nat>,
                                            fails: u32 -> bool)
    requires |slots| == |sels| && |ids| == |selectors|
    ensures var r := UnplugAll(slots, sels, ids, selectors, fails);
            r.result == Done && r.ejects == 0 ==> r.sels == sels
    decreases |ids|
  {
    if ids != [] && IndexOf(slots, ids[0]) == |slots| {
      NoEjectsNoChange(slots, sels, ids[1..], selectors[1..], fails);
    }
  }

  /**
   UnplugCpus leaves what the eject protocol starts from: the stashed
   selectors are those of the processors themselves, and the handler is armed if
   there are any. The BSP is stashed only if it was to be unplugged itself.
   */
  lemma UnplugReadiesEject(c: CpuEject.Config, slots: seq<int>, ids: seq<u32>, selectors: seq<nat>, fails: u32 -> bool,
                           s: CpuEject.State)
    requires c.Valid() && |c.selector| == |slots| == |s.pc| == |s.ejects| && Distinct(slots) && |ids| == |selectors|
    requires forall i, p :: 0 <= i < |ids| && 0 <= p < |slots| && ids[i] == slots[p] ==> selectors[i] == c.selector[p]
    requires forall p :: 0 <= p < |s.pc| ==> s.pc[p] == CpuEject.AtLoad && s.ejects[p] == 0
    requires var r := UnplugAll(slots, Cleared(|slots|), ids, selectors, fails);
             r.result == Done && s.entry == r.sels && (s.armed <==> r.ejects > 0)
    ensures CpuEject.Init(c, s)
    ensures CpuEject.Stashed(s, c.bsp) ==> slots[c.bsp] in ids
  {
    hide UnplugAll, Distinct, StashedAreEmpty;
    NothingStashed(slots);
    UnplugKeeps(slots, Cleared(|slots|), ids, selectors, fails);
    NoEjectsNoChange(slots, Cleared(|slots|), ids, selectors, fails);
    forall p | 0 <= p < |s.entry| && s.entry[p] != INVALID
      ensures s.entry[p] == c.selector[p] && slots[p] in ids && s.armed
    {
      var i :| 0 <= i < |ids| && ids[i] == slots[p] && s.entry[p] == selectors[i];
    }
  }

  lemma NothingStashed(slots: seq<int>)
    ensures StashedAreEmpty(slots, Cleared(|slots|))
  {
  }

  // ----- Runs of MMIs -----

  /** What one MMI finds pending: CPUs to add, and CPUs to remove with their selectors. */
  datatype Events = Events(plugged: seq<u32>, unplugged: seq<u32>, selectors: seq<nat>)

  /** The state that lives from one MMI to the next. */
  datatype Machine = Machine(slots: seq<int>, sels: seq<int>, armed: bool) {
    /** No ejection is pending. */
    ghost predicate Idle() {
      |slots| == |sels| && sels == Cleared(|slots|) && !armed
    }
  }

  function Cleared(n: nat): seq<int> {
    seq(n, i => INVALID)
  }

  /** One MMI; after an error there is no next one, because the firmware stops. */
  function Mmi(m: Machine, e: Events, addFails: u32 -> bool, removeFails: u32 -> bool): (r: (Machine, Result))
    requires |m.slots| == |m.sels| && |e.unplugged| == |e.selectors|
    ensures |r.0.slots| == |r.0.sels| == |m.slots|
  {
    var (added, result) := HotAdd(m.slots, e.plugged, addFails);
    if result != Done then (m.(slots := added), result)
    else
      var un := UnplugAll(added, m.sels, e.unplugged, e.selectors, removeFails);
      (Machine(un.slots, un.sels, m.armed || (un.result == Done && un.ejects > 0)), un.result)
  }

  /**
   An MMI and the exit from it. The configuration c gives QEMU's selectors of the
   processors at the time, and s the state in which they leave SMM under the schedule.
   */
  datatype Round = Round(e: Events, addFails: u32 -> bool, removeFails: u32 -> bool,
                         c: CpuEject.Config, s: CpuEject.State, schedule: seq<nat>)
  {
    /** The events are QEMU's own: selectors fit the CPUs, and the BSP is not to go. */
    ghost predicate Sensible(slots: seq<int>) {
      && |e.unplugged| == |e.selectors| && c.Valid() && |c.selector| == |slots|
      && var added := HotAdd(slots, e.plugged, addFails).0;
      && (forall i, p :: 0 <= i < |e.unplugged| && 0 <= p < |slots| && e.unplugged[i] == added[p] ==>
            e.selectors[i] == c.selector[p])
      && added[c.bsp] !in e.unplugged
    }

    /** Every processor is about to load the handler, and the BSP gets all the steps that it needs. */
    ghost predicate Leaves(m: Machine) {
      && s.entry == m.sels && s.armed == m.armed && |s.pc| == |s.ejects| == |m.sels|
      && (forall p :: 0 <= p < |s.pc| ==> s.pc[p] == CpuEject.AtLoad && s.ejects[p] == 0)
      && (forall i :: 0 <= i < |schedule| ==> schedule[i] < |s.pc|)
      && CpuEject.Count(schedule, c.bsp) >= 4 * |s.pc| + 2
    }

    /** The MMI ends well, and what the eject handlers leave is there for the next one. */
    ghost predicate Takes(m: Machine, m': Machine) {
      && |m.slots| == |m.sels| && Sensible(m.slots)
      && var (mid, result) := Mmi(m, e, addFails, removeFails);
      && result == Done && Leaves(mid) && |c.selector| == |s.pc|
      && var end := CpuEject.Run(c, s, schedule);
      && m' == Machine(mid.slots, end.entry, end.armed)
    }
  }

  /**
   From an idle machine no MMI ends with EFI_ALREADY_STARTED; slots stay distinct;
   known CPUs stay until unplugged.
   */
  lemma MmiKeeps(m: Machine, e: Events, addFails: u32 -> bool, removeFails: u32 -> bool)
    requires m.Idle() && Distinct(m.slots) && |e.unplugged| == |e.selectors|
    ensures var (m', result) := Mmi(m, e, addFails, removeFails);
            && result != AlreadyStarted && Distinct(m'.slots)
            && forall p :: 0 <= p < |m.slots| && m.slots[p] != EMPTY && m.slots[p] !in e.unplugged ==>
                 m'.slots[p] == m.slots[p]
  {
    HotAddKeeps(m.slots, e.plugged, addFails);
    var added := HotAdd(m.slots, e.plugged, addFails).0;
    UnplugKeeps(added, m.sels, e.unplugged, e.selectors, removeFails);
  }

  /**
   What an MMI has done when it ends well: a CPU is known if it was known or plugged
   in, and is not to go; the emptied slots carry a selector, and the handler is armed
   exactly if there are any.
   */
  lemma MmiExact(m: Machine, e: Events, addFails: u32 -> bool, removeFails: u32 -> bool)
    requires m.Idle() && Distinct(m.slots) && |e.unplugged| == |e.selectors|
    requires forall p :: 0 <= p < |m.slots| && m.slots[p] != EMPTY ==> 0 <= m.slots[p] < 0x1_0000_0000
    requires forall s <- e.selectors :: s < 0x1_0000_0000
    ensures var (m', result) := Mmi(m, e, addFails, removeFails);
            result == Done ==>
              && (forall id: u32 :: id in m'.slots <==> (id in m.slots || id in e.plugged) && id !in e.unplugged)
              && (forall p :: 0 <= p < |m.slots| && m'.sels[p] != 0xFFFF_FFFF_FFFF_FFFF ==>
                    m'.slots[p] == 0xFFFF_FFFF_FFFF_FFFF && m'.sels[p] in e.selectors)
              && (m'.armed <==> exists p :: 0 <= p < |m'.sels| && m'.sels[p] != 0xFFFF_FFFF_FFFF_FFFF)
  {
    hide UnplugAll, HotAdd, Distinct, FirstSelector, Sooner;
    var (m', result) := Mmi(m, e, addFails, removeFails);
    if result == Done {
      HotAddKeeps(m.slots, e.plugged, addFails);
      var i := HotAddExact(m.slots, e.plugged, addFails);
      var added := HotAdd(m.slots, e.plugged, addFails).0;
      assert e.plugged[..i] == e.plugged;
      var k := UnplugExact(added, m.sels, e.unplugged, e.selectors, removeFails);
      assert e.unplugged[..k] == e.unplugged;
      NowKnown(m.slots, e.plugged, addFails, added);
      NowUnknown(added, m.sels, e.unplugged, e.selectors, removeFails, m'.slots, m'.sels);
    }
  }

  lemma NowKnown(slots: seq<int>, ids: seq<u32>, fails: u32 -> bool, slots': seq<int>)
    requires Added(slots, ids, fails, slots', |ids|)
    ensures forall id: u32 :: id in slots' <==> id in slots || id in ids
  {
    assert ids[..|ids|] == ids;
    forall id: u32 | id in slots
      ensures id in slots'
    {
      var p :| 0 <= p < |slots| && slots[p] == id;
      assert slots'[p] == id;
    }
  }

  lemma NowUnknown(slots: seq<int>, sels: seq<int>, ids: seq<u32>, selectors: seq<nat>, fails: u32 -> bool,
                   slots': seq<int>, sels': seq<int>)
    requires |ids| == |selectors| && Removed(slots, sels, ids, selectors, fails, slots', sels', |ids|)
    requires sels == Cleared(|slots|) && forall s <- selectors :: s < 0x1_0000_0000
    ensures forall id: u32 :: id in slots' <==> id in slots && id !in ids
    ensures forall p :: 0 <= p < |slots| && sels'[p] != 0xFFFF_FFFF_FFFF_FFFF ==>
              slots'[p] == 0xFFFF_FFFF_FFFF_FFFF && sels'[p] in selectors
    ensures slots' != slots <==> exists p :: 0 <= p < |sels'| && sels'[p] != 0xFFFF_FFFF_FFFF_FFFF
  {
    assert ids[..|ids|] == ids;
    forall id: u32 | id in slots && id !in ids
      ensures id in slots'
    {
      var p :| 0 <= p < |slots| && slots[p] == id;
      assert slots'[p] == id;
    }
    forall p | 0 <= p < |slots|
      ensures if slots'[p] == slots[p] then sels'[p] == 0xFFFF_FFFF_FFFF_FFFF
              else slots'[p] == 0xFFFF_FFFF_FFFF_FFFF && sels'[p] in selectors && sels'[p] != 0xFFFF_FFFF_FFFF_FFFF
    {
      if slots[p] in ids {
        var j :| 0 <= j < |ids| && ids[j] == slots[p] && slots[p] !in ids[..j] && selectors[j] == sels'[p];
        assert slots'[p] != slots[p];
      }
    }
    if slots' != slots {
      var p :| 0 <= p < |slots| && slots'[p] != slots[p];
    }
  }

  /** The eject protocol, whatever its schedule, makes the machine idle again. */
  lemma RoundEndsIdle(r: Round, m: Machine, m': Machine)
    requires m.Idle() && Distinct(m.slots) && r.Takes(m, m')
    ensures m'.Idle()
  {
    HotAddKeeps(m.slots, r.e.plugged, r.addFails);
    var added := HotAdd(m.slots, r.e.plugged, r.addFails).0;
    UnplugReadiesEject(r.c, added, r.e.unplugged, r.e.selectors, r.removeFails, r.s);
    CpuEject.EjectCompletes(r.c, r.s, r.schedule);
    assert m'.sels == Cleared(|m'.slots|);
  }

  ghost predicate IsRun(ms: seq<Machine>, rounds: seq<Round>) {
    && |ms| == |rounds| + 1 && ms[0].Idle() && Distinct(ms[0].slots)
    && forall i :: 0 <= i < |rounds| ==> rounds[i].Takes(ms[i], ms[i + 1])
  }

  /**
   Over any run of MMIs, each followed by the eject protocol under any schedule:
   between MMIs nothing is pending, occupied slots stay distinct, and a known CPU
   keeps its slot until it is itself unplugged. Hence, with MmiKeeps, no MMI fails
   with EFI_ALREADY_STARTED.
   */
  lemma {:induction false} MmiRunKeeps(ms: seq<Machine>, rounds: seq<Round>, n: nat)
    requires IsRun(ms, rounds) && n <= |rounds|
    ensures ms[n].Idle() && Distinct(ms[n].slots) && |ms[n].slots| == |ms[0].slots|
    ensures forall p :: 0 <= p < |ms[0].slots| && ms[0].slots[p] != EMPTY
                        && (forall i :: 0 <= i < n ==> ms[0].slots[p] !in rounds[i].e.unplugged) ==>
              ms[n].slots[p] == ms[0].slots[p]
  {
    if n > 0 {
      var r, m := rounds[n - 1], ms[n - 1];
      MmiRunKeeps(ms, rounds, n - 1);
      assert r.Takes(m, ms[n]);
      MmiKeeps(m, r.e, r.addFails, r.removeFails);
      RoundEndsIdle(r, m, ms[n]);
    }
  }

  /** The next MMI after any run does not fail with EFI_ALREADY_STARTED, whatever it finds. */
  lemma NeverAlreadyStarted(ms: seq<Machine>, rounds: seq<Round>, e: Events, addFails: u32 -> bool,
                            removeFails: u32 -> bool)
    requires IsRun(ms, rounds) && |e.unplugged| == |e.selectors|
    ensures |ms[|rounds|].slots| == |ms[|rounds|].sels|
    ensures Mmi(ms[|rounds|], e, addFails, removeFails).1 != AlreadyStarted
  {
    MmiRunKeeps(ms, rounds, |rounds|);
    MmiKeeps(ms[|rounds|], e, addFails, removeFails);
  }

  // ----- The driver -----

  function Either(f: u32 -> bool, g: u32 -> bool): u32 -> bool {
    (x: u32) => f(x) || g(x)
  }

  /** The selectors that the BSP will eject, in slot order. */
  function PendingEjects(sels: seq<int>): seq<int> {
    if sels == [] then []
    else PendingEjects(sels[..|sels| - 1]) + if sels[|sels| - 1] != INVALID then [sels[|sels| - 1]] else []
  }

  /** Every selector that is pending has its place. */
  lemma {:induction false} PendingExact(sels: seq<int>, i: nat)
    requires i < |sels| && sels[i] != 0xFFFF_FFFF_FFFF_FFFF
    ensures |PendingEjects(sels[..i])| < |PendingEjects(sels)|
    ensures PendingEjects(sels)[|PendingEjects(sels[..i])|] == sels[i]
  {
    var front := sels[..|sels| - 1];
    if i < |front| {
      assert front[..i] == sels[..i];
      PendingExact(front, i);
    }
  }

  /** And no place belongs to anything else. */
  lemma {:induction false} PendingOnly(sels: seq<int>, a: nat) returns (i: nat)
    requires a < |PendingEjects(sels)|
    ensures i < |sels| && sels[i] != 0xFFFF_FFFF_FFFF_FFFF
    ensures |PendingEjects(sels[..i])| == a && PendingEjects(sels)[a] == sels[i]
  {
    i := |sels| - 1;
    var front := sels[..i];
    if a < |PendingEjects(front)| {
      i := PendingOnly(front, a);
      assert front[..i] == sels[..i];
    }
  }

  datatype MmiStatus = Quiesced | Handled | Fatal

  class HotplugDriver {
    const apicId: array<int>          // CPU_HOT_PLUG_DATA.ApicId
    const selectorMap: array<int>     // CPU_HOT_EJECT_DATA.QemuSelectorMap
    var armed: bool                   // CPU_HOT_EJECT_DATA.Handler != NULL
    ghost var ejected: seq<int>       // the selectors for which QEMU has seen the eject bit

    /** The arrays as set up before the first MMI: the CPUs that were there at boot. */
    constructor (slots: array<int>)
      requires Distinct(slots[..])
      ensures Idle() && apicId == slots && fresh(selectorMap) && ejected == []
    {
      apicId := slots;
      selectorMap := new int[slots.Length](_ => INVALID);
      armed, ejected := false, [];
      new;
      assert selectorMap[..] == Cleared(selectorMap.Length);
    }

    ghost predicate Valid()
      reads this, apicId, selectorMap
    {
      && apicId != selectorMap && apicId.Length == selectorMap.Length
      && Distinct(apicId[..])
    }

    /** Nothing is pending: the state between MMIs. */
    ghost predicate Idle()
      reads this, apicId, selectorMap
    {
      Valid() && !armed && selectorMap[..] == Cleared(selectorMap.Length)
    }

    method FindSlot(id: int) returns (k: nat)
      ensures k == IndexOf(apicId[..], id)
    {
      k := 0;
      while k < apicId.Length && apicId[k] != id
        invariant k <= apicId.Length && forall i :: 0 <= i < k ==> apicId[i] != id
      {
        k := k + 1;
      }
    }

    /** The search for an empty slot goes on where it left off; that finds the least empty slot all the same. */
    method ProcessHotAddedCpus(ids: seq<u32>, relocateFails: u32 -> bool, addFails: u32 -> bool)
      returns (result: Result)
      modifies apicId
      ensures (apicId[..], result) == HotAdd(old(apicId[..]), ids, Either(relocateFails, addFails))
    {
      ghost var fails := Either(relocateFails, addFails);
      ghost var goal := HotAdd(apicId[..], ids, fails);
      var idx, newSlot := 0, 0;
      while idx < |ids|
        invariant idx <= |ids| && newSlot <= apicId.Length
        invariant HotAdd(apicId[..], ids[idx..], fails) == goal
        invariant forall i :: 0 <= i < newSlot ==> apicId[i] != EMPTY
      {
        var id := ids[idx];
        assert ids[idx..][0] == id && ids[idx..][1..] == ids[idx + 1..];
        var check := FindSlot(id);
        if check < apicId.Length {
          idx := idx + 1;
          continue;
        }
        while newSlot < apicId.Length && apicId[newSlot] != EMPTY
          invariant newSlot <= apicId.Length && forall i :: 0 <= i < newSlot ==> apicId[i] != EMPTY
        {
          newSlot := newSlot + 1;
        }
        assert newSlot == IndexOf(apicId[..], EMPTY);
        if newSlot == apicId.Length {
          return OutOfResources;
        }
        ghost var before := apicId[..];
        apicId[newSlot] := id;
        if relocateFails(id) || addFails(id) {
          apicId[newSlot] := EMPTY;
          assert apicId[..] == before;
          return AddFailed;
        }
        assert apicId[..] == before[newSlot := id];
        newSlot, idx := newSlot + 1, idx + 1;
      }
      result := Done;
    }

    /** The handler is armed when a selector has been stashed. */
    method UnplugCpus(ids: seq<u32>, selectors: seq<nat>, removeFails: u32 -> bool) returns (result: Result)
      requires |ids| == |selectors| && apicId != selectorMap && apicId.Length == selectorMap.Length
      modifies this`armed, apicId, selectorMap
      ensures var r := UnplugAll(old(apicId[..]), old(selectorMap[..]), ids, selectors, removeFails);
              && apicId[..] == r.slots && selectorMap[..] == r.sels && result == r.result
              && (armed <==> old(armed) || (r.result == Done && r.ejects > 0))
    {
      ghost var goal := UnplugAll(apicId[..], selectorMap[..], ids, selectors, removeFails);
      var idx, ejectCount := 0, 0;
      while idx < |ids|
        invariant idx <= |ids| && armed == old(armed)
        invariant var r := UnplugAll(apicId[..], selectorMap[..], ids[idx..], selectors[idx..], removeFails);
                  goal.slots == r.slots && goal.sels == r.sels && goal.result == r.result
                  && (r.result == Done ==> goal.ejects == r.ejects + ejectCount)
      {
        var id, selector := ids[idx], selectors[idx];
        assert ids[idx..][0] == id && ids[idx..][1..] == ids[idx + 1..];
        assert selectors[idx..][0] == selector && selectors[idx..][1..] == selectors[idx + 1..];
        var p := FindSlot(id);
        if p == apicId.Length {
          idx := idx + 1;
          continue;
        }
        if removeFails(id) {
          return RemoveFailed;
        }
        ghost var slots, sels := apicId[..], selectorMap[..];
        apicId[p] := EMPTY;
        assert apicId[..] == slots[p := EMPTY];
        if selectorMap[p] != INVALID {
          return AlreadyStarted;
        }
        selectorMap[p] := selector;
        assert selectorMap[..] == sels[p := selector];
        ejectCount, idx := ejectCount + 1, idx + 1;
      }
      if ejectCount != 0 {
        armed := true;
      }
      result := Done;
    }

    /** EjectCpu on the BSP, when no other processor interferes: every pending selector is ejected once. */
    method EjectCpu()
      requires Valid()
      modifies this, selectorMap
      ensures Idle() && apicId[..] == old(apicId[..])
      ensures ejected == old(ejected) + PendingEjects(old(selectorMap[..]))
    {
      ghost var sels := selectorMap[..];
      for idx := 0 to selectorMap.Length
        invariant forall i :: 0 <= i < idx ==> selectorMap[i] == INVALID
        invariant forall i :: idx <= i < selectorMap.Length ==> selectorMap[i] == sels[i]
        invariant ejected == old(ejected) + PendingEjects(sels[..idx])
        invariant apicId[..] == old(apicId[..])
      {
        assert sels[..idx + 1][..idx] == sels[..idx];
        if selectorMap[idx] != INVALID {
          ejected := ejected + [selectorMap[idx]];
          selectorMap[idx] := INVALID;
        }
      }
      assert sels[..selectorMap.Length] == sels;
      armed := false;
    }

    /** The driver's data as the state between MMIs. */
    ghost function State(): Machine
      reads this, apicId, selectorMap
    {
      Machine(apicId[..], selectorMap[..], armed)
    }

    /**
     CpuHotplugMmi, with the events taken from the register block. The
     batch that is handled is exactly what the device has pending. Fatal, where the
     firmware stops, is never due to EFI_ALREADY_STARTED.
     */
    method CpuHotplugMmi(device: RegisterBlock, apmReadable: bool, forUs: bool,
                         relocateFails: u32 -> bool, addFails: u32 -> bool, removeFails: u32 -> bool)
      returns (status: MmiStatus)
      requires Idle() && |device.cpus| == apicId.Length && apicId.Length > 1
      modifies this`armed, apicId, selectorMap, device
      ensures Valid()
      ensures status == Quiesced <==> apmReadable && !forUs
      ensures status == Quiesced ==> State() == old(State())
      ensures var (m, result) := Mmi(old(State()), EventsOf(device.cpus), Either(relocateFails, addFails), removeFails);
              && result != AlreadyStarted
              && (status == Handled <==>
                    apmReadable && forUs && Reportable(device.cpus, apicId.Length - 1) && result == Done)
              && (status == Handled ==> State() == m)
    {
      assert State().Idle();
      MmiKeeps(State(), EventsOf(device.cpus), Either(relocateFails, addFails), removeFails);
      if !apmReadable {
        return Fatal;
      }
      if !forUs {
        return Quiesced;
      }
      var room := apicId.Length - 1;
      var plugged, toUnplug, selectors := new u32[room], new u32[room], new nat[room];
      ghost var rounds;
      var scan, pluggedCount, toUnplugCount;
      scan, pluggedCount, toUnplugCount, rounds :=
        CollectApicIds(device, apicId.Length, room, plugged, toUnplug, selectors);
      if scan != Success {
        return Fatal;
      }
      assert apicId[..] == old(apicId[..]) && selectorMap[..] == old(selectorMap[..]);
      var done := HandleEvents(plugged[..pluggedCount], toUnplug[..toUnplugCount], selectors[..toUnplugCount],
                               relocateFails, addFails, removeFails);
      return if done then Handled else Fatal;
    }

    /** The CPUs to add, then those to remove. */
    method HandleEvents(ids: seq<u32>, goneIds: seq<u32>, goneSels: seq<nat>,
                        relocateFails: u32 -> bool, addFails: u32 -> bool, removeFails: u32 -> bool)
      returns (done: bool)
      requires Idle() && |goneIds| == |goneSels|
      modifies this`armed, apicId, selectorMap
      ensures Valid()
      ensures var e := Events(ids, goneIds, goneSels);
              var (m, result) := Mmi(old(State()), e, Either(relocateFails, addFails), removeFails);
              (done <==> result == Done) && (done ==> State() == m)
    {
      HotAddKeeps(apicId[..], ids, Either(relocateFails, addFails));
      var added := ProcessHotAddedCpus(ids, relocateFails, addFails);
      if added != Done {
        return false;
      }
      assert selectorMap[..] == Cleared(selectorMap.Length);
      UnplugKeeps(apicId[..], selectorMap[..], goneIds, goneSels, removeFails);
      var removed := UnplugCpus(goneIds, goneSels, removeFails);
      return removed == Done;
    }
  }

  /** What the device has pending, in selector order. */
  ghost function EventsOf(cpus: seq<Cpu>): (e: Events)
    ensures |e.unplugged| == |e.selectors|
  {
    var sels := Unplugged(cpus, |cpus|);
    Events(Inserted(cpus, |cpus|), ArchIds(cpus, sels), sels)
  }
}
