/**
 The scan for CPU hotplug events of CpuHotplugSmm/QemuCpuhp.c, over the register
 block of QEMU's docs/specs/acpi_cpu_hotplug.txt.
 */
module CpuEvents {
  import opened Words

  /** The bits of QEMU_CPUHP_R_CPU_STAT, and what QEMU_CPUHP_CMD_GET_ARCH_ID returns. */
  datatype Cpu = Cpu(enabled: bool, insert: bool, remove: bool, fwRemove: bool, archId: u32) {
    predicate Pending() {
      insert || remove || fwRemove
    }

    /** The insert and fw_remove events both need an enabled CPU, and exclude each other. */
    predicate Consistent() {
      (insert ==> enabled && !fwRemove) && (fwRemove ==> enabled)
    }

    /** An insert is reported as such; fw_remove counts only without one. */
    predicate Unplugs() {
      fwRemove && !insert
    }
  }

  datatype Command = GetPending | GetArchId

  /** The device looks for a pending CPU from a selector on, around the end, until it is back. */
  function Scan(cpus: seq<Cpu>, from: nat, at: nat, left: nat): (r: nat)
    requires from < |cpus| && at < |cpus|
    ensures r < |cpus|
    decreases left
  {
    if left == 0 then from
    else if cpus[at].Pending() then at
    else Scan(cpus, from, if at + 1 == |cpus| then 0 else at + 1, left - 1)
  }

  function NextPending(cpus: seq<Cpu>, from: nat): (r: nat)
    requires from < |cpus|
    ensures r < |cpus|
  {
    Scan(cpus, from, from, |cpus|)
  }

  lemma {:induction false} ScanFinds(cpus: seq<Cpu>, from: nat, at: nat, left: nat)
    requires from < |cpus| && at < |cpus| && left <= |cpus|
    requires at + left == if at >= from && left > from then from + |cpus| else from
    requires forall i :: from <= i < |cpus| && (left <= from || i < at) ==> !cpus[i].Pending()
    requires left <= from ==> forall i :: 0 <= i < at ==> !cpus[i].Pending()
    ensures var r := Scan(cpus, from, at, left);
            if r >= from && cpus[r].Pending() then forall i :: from <= i < r ==> !cpus[i].Pending()
            else
              && r <= from && (forall i :: from <= i < |cpus| ==> !cpus[i].Pending())
              && (forall i :: 0 <= i < r ==> !cpus[i].Pending()) && (r < from ==> cpus[r].Pending())
    decreases left
  {
    if left > 0 && !cpus[at].Pending() {
      ScanFinds(cpus, from, if at + 1 == |cpus| then 0 else at + 1, left - 1);
    }
  }

  /**
   What the wrap-around amounts to: the next pending CPU at or after the
   selector if there is one; if there is none, the first one before it, or the
   selector itself if nothing is pending at all.
   */
  lemma NextPendingIsNext(cpus: seq<Cpu>, from: nat)
    requires from < |cpus|
    ensures var r := NextPending(cpus, from);
            if r >= from && (cpus[r].insert || cpus[r].remove || cpus[r].fwRemove) then
              forall i :: from <= i < r ==> !cpus[i].insert && !cpus[i].remove && !cpus[i].fwRemove
            else
              && r <= from
              && (forall i :: from <= i < |cpus| ==> !cpus[i].insert && !cpus[i].remove && !cpus[i].fwRemove)
              && (forall i :: 0 <= i < r ==> !cpus[i].insert && !cpus[i].remove && !cpus[i].fwRemove)
              && (r < from ==> cpus[r].insert || cpus[r].remove || cpus[r].fwRemove)
  {
    ScanFinds(cpus, from, from, |cpus|);
  }

  class RegisterBlock {
    const cpus: seq<Cpu>
    var selector: nat
    var command: Command

    ghost predicate Valid()
      reads this
    {
      selector < |cpus|
    }

    method WriteCpuSelector(value: nat)
      requires value < |cpus|
      modifies this
      ensures Valid() && selector == value
    {
      selector := value;
    }

    method WriteCommand(value: Command)
      requires Valid()
      modifies this
      ensures Valid() && command == value
      ensures selector == if value.GetPending? then NextPending(cpus, old(selector)) else old(selector)
    {
      command := value;
      if value.GetPending? {
        selector := NextPending(cpus, selector);
      }
    }

    method ReadCommandData() returns (value: int)
      requires Valid()
      ensures value == if command.GetPending? then selector else cpus[selector].archId
    {
      value := if command.GetPending? then selector else cpus[selector].archId;
    }

    method ReadCpuStatus() returns (status: Cpu)
      requires Valid()
      ensures status == cpus[selector]
    {
      status := cpus[selector];
    }
  }

  // ----- What the scan is to find -----

  /** The APIC IDs of the CPUs with an insert event among the first k, in selector order. */
  function Inserted(cpus: seq<Cpu>, k: nat): (r: seq<u32>)
    requires k <= |cpus|
    ensures |r| <= k
  {
    if k == 0 then []
    else Inserted(cpus, k - 1) + if cpus[k - 1].insert then [cpus[k - 1].archId] else []
  }

  /** The selectors of the CPUs to be unplugged among the first k, in order. */
  function Unplugged(cpus: seq<Cpu>, k: nat): (r: seq<nat>)
    requires k <= |cpus|
    ensures |r| <= k && forall i :: 0 <= i < |r| ==> r[i] < k
  {
    if k == 0 then []
    else Unplugged(cpus, k - 1) + if cpus[k - 1].Unplugs() then [k - 1] else []
  }

  function ArchIds(cpus: seq<Cpu>, selectors: seq<nat>): (r: seq<u32>)
    requires forall i :: 0 <= i < |selectors| ==> selectors[i] < |cpus|
    ensures |r| == |selectors|
  {
    seq(|selectors|, i requires 0 <= i < |selectors| => cpus[selectors[i]].archId)
  }

  lemma {:induction false} NothingBetween(cpus: seq<Cpu>, j: nat, k: nat)
    requires j <= k <= |cpus| && forall i :: j <= i < k ==> !cpus[i].Pending()
    ensures Inserted(cpus, k) == Inserted(cpus, j) && Unplugged(cpus, k) == Unplugged(cpus, j)
  {
    if j < k {
      NothingBetween(cpus, j, k - 1);
      assert !cpus[k - 1].Pending();
    }
  }

  lemma {:induction false} Growing(cpus: seq<Cpu>, j: nat, k: nat)
    requires j <= k <= |cpus|
    ensures |Inserted(cpus, j)| <= |Inserted(cpus, k)| && |Unplugged(cpus, j)| <= |Unplugged(cpus, k)|
  {
    if j < k {
      Growing(cpus, j, k - 1);
    }
  }

  /** Every CPU with an insert event is reported, and exactly once: distinct CPUs have distinct places. */
  lemma {:induction false} InsertedExact(cpus: seq<Cpu>, k: nat, i: nat)
    requires k <= |cpus| && i < k && cpus[i].insert
    ensures |Inserted(cpus, i)| < |Inserted(cpus, k)| && Inserted(cpus, k)[|Inserted(cpus, i)|] == cpus[i].archId
  {
    if i < k - 1 {
      InsertedExact(cpus, k - 1, i);
    }
  }

  /** And nothing else is reported: every place belongs to a CPU with an insert event. */
  lemma {:induction false} InsertedOnly(cpus: seq<Cpu>, k: nat, a: nat) returns (i: nat)
    requires k <= |cpus| && a < |Inserted(cpus, k)|
    ensures i < k && cpus[i].insert && |Inserted(cpus, i)| == a && Inserted(cpus, k)[a] == cpus[i].archId
  {
    if a < |Inserted(cpus, k - 1)| {
      i := InsertedOnly(cpus, k - 1, a);
    } else {
      i := k - 1;
    }
  }

  /** A selector is reported for unplugging if and only if that CPU has the event and no insert. */
  lemma {:induction false} UnpluggedExact(cpus: seq<Cpu>, k: nat)
    requires k <= |cpus|
    ensures forall i: nat :: i in Unplugged(cpus, k) <==> i < k && cpus[i].fwRemove && !cpus[i].insert
    ensures forall a, b :: 0 <= a < b < |Unplugged(cpus, k)| ==> Unplugged(cpus, k)[a] < Unplugged(cpus, k)[b]
  {
    if k > 0 {
      UnpluggedExact(cpus, k - 1);
    }
  }

  datatype Status = Success | InvalidParameter | ProtocolError | BufferTooSmall

  /** The part of the scan up to a selector has gone well. */
  ghost predicate Collected(cpus: seq<Cpu>, k: nat, room: nat, plugged: seq<u32>, toUnplug: seq<u32>,
                            selectors: seq<nat>) {
    && k <= |cpus|
    && (forall i :: 0 <= i < k ==> cpus[i].Consistent())
    && plugged == Inserted(cpus, k) && |plugged| <= room
    && selectors == Unplugged(cpus, k) && |selectors| <= room
    && toUnplug == ArchIds(cpus, selectors)
  }

  /** The scan moves on to the pending CPU at selector j and past it. */
  lemma CollectOne(cpus: seq<Cpu>, k: nat, j: nat, room: nat, plugged: seq<u32>, toUnplug: seq<u32>,
                   selectors: seq<nat>)
    requires Collected(cpus, k, room, plugged, toUnplug, selectors) && k <= j < |cpus|
    requires forall i :: k <= i < j ==> !cpus[i].Pending()
    requires cpus[j].Consistent()
    ensures Inserted(cpus, j + 1) == plugged + if cpus[j].insert then [cpus[j].archId] else []
    ensures Unplugged(cpus, j + 1) == selectors + if cpus[j].Unplugs() then [j] else []
    ensures ArchIds(cpus, Unplugged(cpus, j + 1)) == toUnplug + if cpus[j].Unplugs() then [cpus[j].archId] else []
    ensures forall i :: 0 <= i < j + 1 ==> cpus[i].Consistent()
  {
    NothingBetween(cpus, k, j);
    forall i | k <= i < j
      ensures cpus[i].Consistent()
    {
      assert !cpus[i].Pending();
    }
  }

  lemma CollectRest(cpus: seq<Cpu>, k: nat, room: nat, plugged: seq<u32>, toUnplug: seq<u32>, selectors: seq<nat>)
    requires Collected(cpus, k, room, plugged, toUnplug, selectors)
    requires forall i :: k <= i < |cpus| ==> !cpus[i].Pending()
    ensures Collected(cpus, |cpus|, room, plugged, toUnplug, selectors)
  {
    NothingBetween(cpus, k, |cpus|);
    forall i | k <= i < |cpus|
      ensures cpus[i].Consistent()
    {
      assert !cpus[i].Pending();
    }
  }

  /** Too many events up to a selector are too many in all. */
  lemma TooMany(cpus: seq<Cpu>, k: nat, j: nat, room: nat, plugged: seq<u32>, toUnplug: seq<u32>, selectors: seq<nat>)
    requires Collected(cpus, k, room, plugged, toUnplug, selectors) && k <= j < |cpus|
    requires forall i :: k <= i < j ==> !cpus[i].Pending()
    requires (cpus[j].insert && |plugged| == room) || (cpus[j].Unplugs() && |selectors| == room)
    ensures |Inserted(cpus, |cpus|)| > room || |Unplugged(cpus, |cpus|)| > room
  {
    NothingBetween(cpus, k, j);
    Growing(cpus, j + 1, |cpus|);
  }

  /** The CPU with the pending event is added to the arrays that its event calls for. */
  method Extend(device: RegisterBlock, ghost k: nat, pending: nat, ghost room: nat, plugged: array<u32>,
                toUnplug: array<u32>, selectors: array<nat>, p: nat, u: nat) returns (p': nat, u': nat)
    requires device.selector == pending && k <= pending < |device.cpus| && device.cpus[pending].Consistent()
    requires forall i :: k <= i < pending ==> !device.cpus[i].Pending()
    requires plugged.Length == toUnplug.Length == selectors.Length == room && plugged != toUnplug
    requires p <= room && u <= room && Collected(device.cpus, k, room, plugged[..p], toUnplug[..u], selectors[..u])
    requires (device.cpus[pending].insert ==> p < room) && (device.cpus[pending].Unplugs() ==> u < room)
    modifies device, plugged, toUnplug, selectors
    ensures p' <= room && u' <= room && p' + u' <= p + u + 1
    ensures Collected(device.cpus, pending + 1, room, plugged[..p'], toUnplug[..u'], selectors[..u'])
  {
    var cpu := device.cpus[pending];
    CollectOne(device.cpus, k, pending, room, plugged[..p], toUnplug[..u], selectors[..u]);
    p', u' := p, u;
    if cpu.insert || cpu.fwRemove {
      device.WriteCommand(GetArchId);
      var id := device.ReadCommandData();
      if cpu.insert {
        ghost var before := plugged[..p];
        plugged[p] := id;
        p' := p + 1;
        assert plugged[..p'] == before + [id];
      } else {
        ghost var ids, sels := toUnplug[..u], selectors[..u];
        selectors[u] := pending;
        toUnplug[u] := id;
        u' := u + 1;
        assert toUnplug[..u'] == ids + [id] && selectors[..u'] == sels + [pending];
      }
    }
  }

  /** The events can be reported: they are consistent, and there is room for them. */
  ghost predicate Reportable(cpus: seq<Cpu>, room: nat) {
    && (forall i :: 0 <= i < |cpus| ==> cpus[i].Consistent())
    && |Inserted(cpus, |cpus|)| <= room && |Unplugged(cpus, |cpus|)| <= room
  }

  /**
   QemuCpuhpCollectApicIds: the scan ends within as many rounds as there
   are CPUs, it succeeds exactly when the events are consistent and fit, and then
   the arrays hold exactly the CPUs with events, in selector order.
   */
  method CollectApicIds(device: RegisterBlock, possibleCpuCount: nat, apicIdCount: nat,
                        plugged: array<u32>, toUnplug: array<u32>, selectors: array<nat>)
    returns (status: Status, pluggedCount: nat, toUnplugCount: nat, ghost rounds: nat)
    requires possibleCpuCount == |device.cpus|
    requires plugged.Length == toUnplug.Length == selectors.Length == apicIdCount
    requires plugged != toUnplug
    modifies device, plugged, toUnplug, selectors
    ensures status == InvalidParameter <==> possibleCpuCount == 0 || apicIdCount == 0
    ensures rounds <= possibleCpuCount && (status == Success ==> pluggedCount + toUnplugCount <= rounds)
    ensures status == Success <==> status != InvalidParameter && Reportable(device.cpus, apicIdCount)
    ensures Reportable(device.cpus, apicIdCount) <==>
            && (forall i :: 0 <= i < |device.cpus| ==>
                  var cpu := device.cpus[i];
                  (cpu.insert ==> cpu.enabled && !cpu.fwRemove) && (cpu.fwRemove ==> cpu.enabled))
            && |Inserted(device.cpus, |device.cpus|)| <= apicIdCount
            && |Unplugged(device.cpus, |device.cpus|)| <= apicIdCount
    ensures status == ProtocolError ==>
              exists cpu <- device.cpus ::
                (cpu.insert && (!cpu.enabled || cpu.fwRemove)) || (cpu.fwRemove && !cpu.enabled)
    ensures status == BufferTooSmall ==>
              || |Inserted(device.cpus, |device.cpus|)| > apicIdCount
              || |Unplugged(device.cpus, |device.cpus|)| > apicIdCount
    ensures status == Success ==>
              && pluggedCount <= apicIdCount && toUnplugCount <= apicIdCount
              && plugged[..pluggedCount] == Inserted(device.cpus, |device.cpus|)
              && selectors[..toUnplugCount] == Unplugged(device.cpus, |device.cpus|)
              && toUnplug[..toUnplugCount] == ArchIds(device.cpus, Unplugged(device.cpus, |device.cpus|))
  {
    hide Inserted, Unplugged, ArchIds;
    pluggedCount, toUnplugCount, rounds, status := 0, 0, 0, Success;
    if possibleCpuCount == 0 || apicIdCount == 0 {
      return InvalidParameter, 0, 0, 0;
    }
    var cpus := device.cpus;
    var current := 0;
    while current < possibleCpuCount
      invariant rounds <= current <= possibleCpuCount && status == Success
      invariant pluggedCount + toUnplugCount <= rounds
      invariant pluggedCount <= apicIdCount && toUnplugCount <= apicIdCount
      invariant Collected(cpus, current, apicIdCount,
                          plugged[..pluggedCount], toUnplug[..toUnplugCount], selectors[..toUnplugCount])
    {
      rounds := rounds + 1;
      device.WriteCpuSelector(current);
      device.WriteCommand(GetPending);
      var pending := device.ReadCommandData();
      NextPendingIsNext(cpus, current);
      var cpu := device.ReadCpuStatus();
      if pending < current || !cpu.Pending() {
        // wrap-around, or no event at all
        CollectRest(cpus, current, apicIdCount,
                    plugged[..pluggedCount], toUnplug[..toUnplugCount], selectors[..toUnplugCount]);
        return;
      }
      if (cpu.insert && (!cpu.enabled || cpu.fwRemove)) || (cpu.fwRemove && !cpu.enabled) {
        assert !cpus[pending].Consistent();
        return ProtocolError, pluggedCount, toUnplugCount, rounds;
      }
      if (cpu.insert && pluggedCount == apicIdCount) || (cpu.Unplugs() && toUnplugCount == apicIdCount) {
        TooMany(cpus, current, pending, apicIdCount,
                plugged[..pluggedCount], toUnplug[..toUnplugCount], selectors[..toUnplugCount]);
        return BufferTooSmall, pluggedCount, toUnplugCount, rounds;
      }
      pluggedCount, toUnplugCount := Extend(device, current, pending, apicIdCount,
                                            plugged, toUnplug, selectors, pluggedCount, toUnplugCount);
      current := pending + 1;
    }
  }
}
