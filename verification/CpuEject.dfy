/**
 The hot-eject handler of CpuHotplugSmm/CpuHotplug.c, run by all processors at
 once on their way out of SMM (Library/SmmCpuFeaturesLib/SmmCpuFeaturesLib.c).
 A schedule says which processor takes the next step; every schedule is allowed.
 */
module CpuEject {
  import opened Words

  /** CPU_EJECT_QEMU_SELECTOR_INVALID; QEMU's selectors are 32 bits wide. */
  const INVALID := 0xFFFF_FFFF_FFFF_FFFF
  type Selector = u32

  /** Where a processor is. Scan to Clear are the loop of the BSP. */
  datatype Pc =
    | AtLoad                            // about to load CPU_HOT_EJECT_DATA.Handler
    | InHandler                         // AP: about to read its selector map entry
    | Penned                            // AP: in the CpuSleep loop
    | Scan(index: nat)                  // BSP: at the loop head
    | Select(index: nat, selector: int) // BSP: about to write the CPU selector register
    | Eject(index: nat)                 // BSP: about to write the eject bit
    | Clear(index: nat)                 // BSP: about to clear the map entry
    | Returned                          // back from the handler
    | Gone                              // ejected; takes no further step

  /** The boot processor, and the QEMU selector of every processor. */
  datatype Config = Config(bsp: nat, selector: seq<Selector>) {
    ghost predicate Valid() {
      && bsp < |selector|
      && (forall p, q :: 0 <= p < q < |selector| ==> selector[p] != selector[q])
    }
  }

  datatype State = State(entry: seq<int>, armed: bool, register: int, pc: seq<Pc>, ejects: seq<nat>)

  /** The processors whose selector UnplugCpus has stashed. */
  ghost predicate Stashed(s0: State, p: nat) {
    p < |s0.entry| && s0.entry[p] != INVALID
  }

  /** As UnplugCpus leaves things: the handler is armed if any selector is stashed. */
  ghost predicate Init(c: Config, s: State) {
    && c.Valid()
    && |s.entry| == |s.pc| == |s.ejects| == |c.selector|
    && (forall p :: 0 <= p < |s.entry| ==> s.entry[p] == INVALID || s.entry[p] == c.selector[p])
    && (forall p :: 0 <= p < |s.entry| && s.entry[p] != INVALID ==> s.armed)
    && (forall p :: 0 <= p < |s.pc| ==> s.pc[p] == AtLoad && s.ejects[p] == 0)
  }

  function At(s: State, p: nat, pc: Pc): State
    requires p < |s.pc|
  {
    s.(pc := s.pc[p := pc])
  }

  /** QEMU's reaction to the eject bit: the selected processor is taken out of the machine. */
  function DeviceEject(c: Config, s: State): State
    requires |s.pc| == |s.ejects| == |c.selector|
  {
    s.(pc := seq(|s.pc|, p requires 0 <= p < |s.pc| => if c.selector[p] == s.register then Gone else s.pc[p]),
       ejects := seq(|s.pc|, p requires 0 <= p < |s.pc| => s.ejects[p] + if c.selector[p] == s.register then 1 else 0))
  }

  /** One step of processor p; a processor that is penned, back or gone stays as it is. */
  function Next(c: Config, s: State, p: nat): State
    requires |s.entry| == |s.pc| == |s.ejects| == |c.selector| && p < |s.pc|
  {
    match s.pc[p]
    case AtLoad =>
      if !s.armed then At(s, p, Returned) else At(s, p, if p == c.bsp then Scan(0) else InHandler)
    case InHandler =>
      At(s, p, if s.entry[p] == INVALID then Returned else Penned)
    case Scan(i) =>
      if i >= |s.entry| then At(s.(armed := false), p, Returned)
      else if s.entry[i] == INVALID then At(s, p, Scan(i + 1))
      else At(s, p, Select(i, s.entry[i]))
    case Select(i, q) =>
      At(s.(register := q), p, Eject(i))
    case Eject(i) =>
      DeviceEject(c, At(s, p, Clear(i)))
    case Clear(i) =>
      At(if i < |s.entry| then s.(entry := s.entry[i := INVALID]) else s, p, Scan(i + 1))
    case _ => s
  }

  /** The state after a schedule. */
  function Run(c: Config, s0: State, schedule: seq<nat>): (s: State)
    requires |s0.entry| == |s0.pc| == |s0.ejects| == |c.selector|
    requires forall i :: 0 <= i < |schedule| ==> schedule[i] < |s0.pc|
    ensures |s.entry| == |s.pc| == |s.ejects| == |c.selector|
  {
    if schedule == [] then s0
    else Next(c, Run(c, s0, schedule[..|schedule| - 1]), schedule[|schedule| - 1])
  }

  // ----- Safety -----

  /** How far the BSP's loop has come: entries below are done with, entries from there on are untouched. */
  function Frontier(s: State, bsp: nat): nat
    requires bsp < |s.pc|
  {
    match s.pc[bsp]
    case AtLoad => 0
    case Scan(i) => i
    case Select(i, _) => i
    case Eject(i) => i
    case Clear(i) => i
    case _ => |s.entry|
  }

  /** p is still to be ejected, and cannot have left the handler. */
  ghost predicate Pending(c: Config, s: State, p: nat)
    requires p < |s.pc| == |s.entry| == |s.ejects| == |c.selector|
  {
    s.armed && s.entry[p] == c.selector[p] && s.ejects[p] == 0
    && (s.pc[p].AtLoad? || s.pc[p].InHandler? || s.pc[p].Penned?)
  }

  ghost predicate Ejected(s: State, p: nat)
    requires p < |s.pc| == |s.ejects|
  {
    s.pc[p].Gone? && s.ejects[p] == 1
  }

  /** p is none of the eject handler's business. */
  ghost predicate Bystander(s: State, p: nat)
    requires p < |s.pc| == |s.entry| == |s.ejects|
  {
    s.entry[p] == INVALID && s.ejects[p] == 0 && (s.pc[p].AtLoad? || s.pc[p].InHandler? || s.pc[p].Returned?)
  }

  /** The BSP is at a place that fits the state of the entry it works on. */
  ghost predicate BspOk(c: Config, s0: State, s: State)
    requires c.bsp < |s.pc| == |s.entry| == |s.ejects| == |c.selector| == |s0.entry|
  {
    && s.entry[c.bsp] == INVALID && s.ejects[c.bsp] == 0
    && match s.pc[c.bsp]
       case AtLoad => s.armed == s0.armed
       case Scan(i) => s.armed && i <= |s.pc|
       case Select(i, q) => s.armed && i < |s.pc| && Stashed(s0, i) && q == c.selector[i]
       case Eject(i) => s.armed && i < |s.pc| && Stashed(s0, i) && s.register == c.selector[i]
       case Clear(i) => s.armed && i < |s.pc| && Stashed(s0, i)
       case Returned => !s.armed
       case _ => false
  }

  /** The entry that the BSP is about to clear has been ejected already. */
  ghost predicate BeingCleared(c: Config, s: State, p: nat)
    requires c.bsp < |s.pc|
  {
    s.pc[c.bsp] == Clear(p)
  }

  ghost predicate Inv(c: Config, s0: State, s: State) {
    && Init(c, s0) && !Stashed(s0, c.bsp)
    && |s.entry| == |s.pc| == |s.ejects| == |c.selector|
    && BspOk(c, s0, s)
    && (forall p :: 0 <= p < |s.pc| && p != c.bsp ==> ApOk(c, s0, s, p))
  }

  ghost predicate ApOk(c: Config, s0: State, s: State, p: nat)
    requires c.bsp < |s.pc| == |s.entry| == |s.ejects| == |c.selector| == |s0.entry| && p < |s.pc|
  {
    if !Stashed(s0, p) then Bystander(s, p)
    else if p < Frontier(s, c.bsp) then Ejected(s, p) && s.entry[p] == INVALID
    else if BeingCleared(c, s, p) then Ejected(s, p)
    else Pending(c, s, p)
  }

  /** A step of an AP concerns that AP only. */
  lemma ApKeepsInv(c: Config, s0: State, s: State, p: nat)
    requires Inv(c, s0, s) && p < |s.pc| && p != c.bsp
    ensures Inv(c, s0, Next(c, s, p))
  {
    var s' := Next(c, s, p);
    assert ApOk(c, s0, s, p);
    forall q | 0 <= q < |s.pc| && q != c.bsp
      ensures ApOk(c, s0, s', q)
    {
      assert ApOk(c, s0, s, q);
    }
  }

  /** The BSP's steps other than the eject itself. */
  lemma BspKeepsInv(c: Config, s0: State, s: State)
    requires Inv(c, s0, s) && !s.pc[c.bsp].Eject?
    ensures Inv(c, s0, Next(c, s, c.bsp))
  {
    var s' := Next(c, s, c.bsp);
    if s.pc[c.bsp].Scan? && s.pc[c.bsp].index < |s.pc| && s.pc[c.bsp].index != c.bsp {
      assert ApOk(c, s0, s, s.pc[c.bsp].index);
    }
    forall q | 0 <= q < |s.pc| && q != c.bsp
      ensures ApOk(c, s0, s', q)
    {
      assert ApOk(c, s0, s, q);
    }
  }

  /** The eject removes the processor whose entry the BSP is at, and no other. */
  lemma EjectKeepsInv(c: Config, s0: State, s: State)
    requires Inv(c, s0, s) && s.pc[c.bsp].Eject?
    ensures Inv(c, s0, Next(c, s, c.bsp))
  {
    var s' := Next(c, s, c.bsp);
    var i := s.pc[c.bsp].index;
    forall q | 0 <= q < |s.pc|
      ensures c.selector[q] == s.register <==> q == i
    {
    }
    forall q | 0 <= q < |s.pc| && q != c.bsp
      ensures ApOk(c, s0, s', q)
    {
      assert ApOk(c, s0, s, q);
    }
  }

  lemma InitInv(c: Config, s0: State)
    requires Init(c, s0) && !Stashed(s0, c.bsp)
    ensures Inv(c, s0, s0)
  {
    forall p | 0 <= p < |s0.pc| && p != c.bsp
      ensures ApOk(c, s0, s0, p)
    {
    }
  }

  lemma {:induction false} RunKeepsInv(c: Config, s0: State, schedule: seq<nat>)
    requires Init(c, s0) && !Stashed(s0, c.bsp)
    requires forall i :: 0 <= i < |schedule| ==> schedule[i] < |s0.pc|
    ensures Inv(c, s0, Run(c, s0, schedule))
  {
    if schedule == [] {
      InitInv(c, s0);
    } else {
      var front, p := schedule[..|schedule| - 1], schedule[|schedule| - 1];
      RunKeepsInv(c, s0, front);
      var s := Run(c, s0, front);
      if p != c.bsp {
        ApKeepsInv(c, s0, s, p);
      } else if s.pc[p].Eject? {
        EjectKeepsInv(c, s0, s);
      } else {
        BspKeepsInv(c, s0, s);
      }
    }
  }

  /**
   Eject safety, over all interleavings: at no time has a processor with a
   stashed selector left the handler or been ejected twice; no other processor is
   ever ejected or penned; and once the BSP is back, every stashed processor has
   been ejected exactly once, no entry is left and the handler is disarmed.
   */
  lemma EjectSafety(c: Config, s0: State, schedule: seq<nat>, p: nat)
    requires Init(c, s0) && !Stashed(s0, c.bsp) && p < |s0.pc|
    requires forall i :: 0 <= i < |schedule| ==> schedule[i] < |s0.pc|
    ensures var s := Run(c, s0, schedule);
            && (Stashed(s0, p) ==> !s.pc[p].Returned? && s.ejects[p] <= 1 && (s.ejects[p] == 1 <==> s.pc[p].Gone?))
            && (!Stashed(s0, p) ==> !s.pc[p].Gone? && !s.pc[p].Penned? && s.ejects[p] == 0)
            && (s.pc[c.bsp].Returned? ==>
                  !s.armed && s.entry[p] == INVALID && (Stashed(s0, p) <==> s.ejects[p] == 1))
  {
    RunKeepsInv(c, s0, schedule);
    var s := Run(c, s0, schedule);
    if p != c.bsp {
      assert ApOk(c, s0, s, p);
    }
  }

  // ----- Progress -----

  function Count(schedule: seq<nat>, p: nat): nat {
    if schedule == [] then 0
    else Count(schedule[..|schedule| - 1], p) + if schedule[|schedule| - 1] == p then 1 else 0
  }

  /** A bound on the steps that the BSP has still to take. */
  function Rank(pc: Pc, n: nat): int {
    match pc
    case AtLoad => 4 * n + 2
    case Scan(i) => 4 * (n - i) + 1
    case Select(i, _) => 4 * (n - i)
    case Eject(i) => 4 * (n - i) - 1
    case Clear(i) => 4 * (n - i) - 2
    case _ => 0
  }

  lemma {:induction false} RankFalls(c: Config, s0: State, schedule: seq<nat>)
    requires Init(c, s0) && !Stashed(s0, c.bsp)
    requires forall i :: 0 <= i < |schedule| ==> schedule[i] < |s0.pc|
    ensures var s := Run(c, s0, schedule);
            s.pc[c.bsp].Returned? || 0 < Rank(s.pc[c.bsp], |s.pc|) <= 4 * |s.pc| + 2 - Count(schedule, c.bsp)
  {
    RunKeepsInv(c, s0, schedule);
    if schedule != [] {
      var front := schedule[..|schedule| - 1];
      RunKeepsInv(c, s0, front);
      RankFalls(c, s0, front);
      BspStays(c, s0, Run(c, s0, front), schedule[|schedule| - 1]);
    }
  }

  lemma BspStays(c: Config, s0: State, s: State, p: nat)
    requires Inv(c, s0, s) && p < |s.pc|
    ensures var s' := Next(c, s, p);
            if p != c.bsp || s.pc[c.bsp].Returned? then s'.pc[c.bsp] == s.pc[c.bsp]
            else s'.pc[c.bsp].Returned? || Rank(s'.pc[c.bsp], |s.pc|) < Rank(s.pc[c.bsp], |s.pc|)
  {
    if p != c.bsp {
      assert ApOk(c, s0, s, p);
    } else if s.pc[p].Eject? {
      assert s.pc[p].index != c.bsp;
    }
  }

  /** Progress: once the BSP has been given 4 n + 2 steps, in any schedule, all ejections are done. */
  lemma EjectCompletes(c: Config, s0: State, schedule: seq<nat>)
    requires Init(c, s0) && !Stashed(s0, c.bsp)
    requires forall i :: 0 <= i < |schedule| ==> schedule[i] < |s0.pc|
    requires Count(schedule, c.bsp) >= 4 * |s0.pc| + 2
    ensures var s := Run(c, s0, schedule);
            s.pc[c.bsp].Returned? && !s.armed
            && forall p :: 0 <= p < |s.pc| ==> s.entry[p] == INVALID && (Stashed(s0, p) <==> s.ejects[p] == 1)
  {
    RankFalls(c, s0, schedule);
    EjectSafety(c, s0, schedule, c.bsp);
    forall p | 0 <= p < |s0.pc|
      ensures var s := Run(c, s0, schedule); s.entry[p] == INVALID && (Stashed(s0, p) <==> s.ejects[p] == 1)
    {
      EjectSafety(c, s0, schedule, p);
    }
  }

  /**
   Where an AP is after n steps of its own. A stashed one is penned from the second
   step on, unless it has been ejected before. Any other is back by then.
   */
  ghost predicate ApAfter(stashed: bool, pc: Pc, n: nat) {
    if stashed then pc.Gone? || (if n == 0 then pc.AtLoad? else if n == 1 then pc.InHandler? else pc.Penned?)
    else if n == 0 then pc.AtLoad?
    else if n == 1 then pc.InHandler? || pc.Returned?
    else pc.Returned?
  }

  /** APs make progress without the BSP: in any schedule, two steps bring each of them to its place. */
  lemma {:induction false} ApProgress(c: Config, s0: State, schedule: seq<nat>, p: nat)
    requires Init(c, s0) && !Stashed(s0, c.bsp) && p < |s0.pc| && p != c.bsp
    requires forall i :: 0 <= i < |schedule| ==> schedule[i] < |s0.pc|
    ensures ApAfter(Stashed(s0, p), Run(c, s0, schedule).pc[p], Count(schedule, p))
  {
    if schedule != [] {
      var front := schedule[..|schedule| - 1];
      RunKeepsInv(c, s0, front);
      ApProgress(c, s0, front, p);
      ApStays(c, s0, Run(c, s0, front), schedule[|schedule| - 1], p);
    }
  }

  /** An AP that comes when the handler is disarmed passes it by, in one step. */
  lemma LateApPasses(c: Config, s0: State, schedule: seq<nat>, p: nat)
    requires Init(c, s0) && !Stashed(s0, c.bsp) && p < |s0.pc| && p != c.bsp && !Stashed(s0, p)
    requires forall i :: 0 <= i < |schedule| ==> schedule[i] < |s0.pc|
    requires Count(schedule, p) == 0 && !Run(c, s0, schedule).armed
    ensures Run(c, s0, schedule + [p]).pc[p].Returned?
  {
    ApProgress(c, s0, schedule, p);
    assert (schedule + [p])[..|schedule|] == schedule;
  }

  /** A step of p brings it on; another's step leaves it where it is, or ejects it if it is stashed. */
  lemma ApStays(c: Config, s0: State, s: State, q: nat, p: nat)
    requires Inv(c, s0, s) && q < |s.pc| && p < |s.pc| && p != c.bsp
    ensures var s' := Next(c, s, q);
            if p != q then s'.pc[p] == s.pc[p] || (Stashed(s0, p) && s'.pc[p].Gone?)
            else match s.pc[p]
                 case AtLoad => s'.pc[p].InHandler? || (!Stashed(s0, p) && s'.pc[p].Returned?)
                 case InHandler => if Stashed(s0, p) then s'.pc[p].Penned? else s'.pc[p].Returned?
                 case _ => s'.pc[p] == s.pc[p]
  {
    assert ApOk(c, s0, s, p);
    if q != c.bsp {
      assert ApOk(c, s0, s, q);
    } else if s.pc[q].Eject? && c.selector[p] == s.register {
      assert p == s.pc[q].index;
    }
  }

  // ----- A stashed BSP -----

  /** With its own selector stashed, the BSP works towards its own ejection. */
  ghost predicate Doomed(c: Config, s: State) {
    && c.Valid()
    && |s.entry| == |s.pc| == |s.ejects| == |c.selector|
    && s.entry[c.bsp] == c.selector[c.bsp]
    && (forall p :: 0 <= p < |s.pc| ==> s.entry[p] == INVALID || s.entry[p] == c.selector[p])
    && (forall p :: 0 <= p < |s.pc| && p != c.bsp ==>
          s.pc[p].AtLoad? || s.pc[p].InHandler? || s.pc[p].Penned? || s.pc[p].Returned? || s.pc[p].Gone?)
    && match s.pc[c.bsp]
       case AtLoad => s.armed
       case Scan(i) => i <= c.bsp
       case Select(i, q) => i <= c.bsp && q == c.selector[i]
       case Eject(i) => i <= c.bsp && s.register == c.selector[i]
       case Clear(i) => i < c.bsp
       case Gone => true
       case _ => false
  }

  lemma DoomedStep(c: Config, s: State, p: nat)
    requires Doomed(c, s) && p < |s.pc|
    ensures Doomed(c, Next(c, s, p))
  {
    if s.pc[p].Eject? {
      assert c.selector[s.pc[p].index] == c.selector[c.bsp] ==> s.pc[p].index == c.bsp;
    }
  }

  lemma {:induction false} RunDoomed(c: Config, s0: State, schedule: seq<nat>)
    requires Init(c, s0) && Stashed(s0, c.bsp)
    requires forall i :: 0 <= i < |schedule| ==> schedule[i] < |s0.pc|
    ensures Doomed(c, Run(c, s0, schedule))
  {
    if schedule != [] {
      var front := schedule[..|schedule| - 1];
      RunDoomed(c, s0, front);
      DoomedStep(c, Run(c, s0, front), schedule[|schedule| - 1]);
    }
  }

  function Repeat(p: nat, n: nat): (r: seq<nat>)
    ensures |r| == n && forall i :: 0 <= i < n ==> r[i] == p
  {
    seq(n, i => p)
  }

  lemma {:induction false} CountRepeat(p: nat, n: nat)
    ensures Count(Repeat(p, n), p) == n
  {
    if n > 0 {
      CountRepeat(p, n - 1);
      assert Repeat(p, n)[..n - 1] == Repeat(p, n - 1);
    }
  }

  /** Exactly when the protocol can finish: some schedule brings the BSP back if and only if it is not stashed. */
  lemma CompletesIffBspStays(c: Config, s0: State)
    requires Init(c, s0)
    ensures !Stashed(s0, c.bsp) <==>
            exists schedule: seq<nat> ::
              (forall i :: 0 <= i < |schedule| ==> schedule[i] < |s0.pc|) && Run(c, s0, schedule).pc[c.bsp].Returned?
  {
    if Stashed(s0, c.bsp) {
      forall schedule: seq<nat> | forall i :: 0 <= i < |schedule| ==> schedule[i] < |s0.pc|
        ensures !Run(c, s0, schedule).pc[c.bsp].Returned?
      {
        RunDoomed(c, s0, schedule);
      }
    } else {
      var schedule := Repeat(c.bsp, 4 * |s0.pc| + 2);
      CountRepeat(c.bsp, 4 * |s0.pc| + 2);
      EjectCompletes(c, s0, schedule);
    }
  }
}
