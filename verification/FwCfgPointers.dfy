/**
 The addresses that QEMU learns through WritePointer commands: which writes a
 prefix of a script has made, and what taking them back leaves in the files.
 */
module FwCfgPointers {
  import opened Words
  import opened Bytes
  import opened LinkerScript
  import opened BootScript

  /** The number of WritePointer commands among the first k commands. */
  function WriteCount(script: seq<Command>, k: nat): (n: nat)
    requires k <= |script|
    ensures n <= k
  {
    if k == 0 then 0 else WriteCount(script, k - 1) + if script[k - 1].WritePointer? then 1 else 0
  }

  /** WritePointerSubsetEnd: the end of the part of the first k commands that holds all their WritePointers. */
  ghost predicate SubsetEnd(script: seq<Command>, n: nat, k: nat) {
    n <= k <= |script| && WriteCount(script, n) == WriteCount(script, k)
  }

  lemma SubsetEndNext(script: seq<Command>, n: nat, k: nat)
    requires k < |script| && SubsetEnd(script, n, k)
    ensures SubsetEnd(script, if script[k].WritePointer? then k + 1 else n, k + 1)
  {
  }

  lemma {:induction false} WriteCountMonotone(script: seq<Command>, j: nat, k: nat)
    requires j <= k <= |script|
    ensures WriteCount(script, j) <= WriteCount(script, k)
    decreases k
  {
    if j < k {
      WriteCountMonotone(script, j, k - 1);
    }
  }

  /** The fw_cfg write that a WritePointer command asks for, once its value is known. */
  function WriteFor(directory: map<string, u16>, c: Command, value: nat): Condensed
    requires value <= MAX_ADDRESS
    requires c.WritePointer? && c.pointerFile.Terminated? && c.pointerFile.id in directory
  {
    Condensed(directory[c.pointerFile.id], c.pointerSize, c.pointerOffset, value)
  }

  /** w is the write of the command c, and its value is the address in the pointee that c asks for. */
  ghost predicate Carries(directory: map<string, u16>, t: Tracker, c: Command, w: Condensed) {
    && c.WritePointer?
    && c.pointerFile.Terminated? && c.pointerFile.id in directory && ValidPointerSize(c.pointerSize)
    && w == WriteFor(directory, c, w.value)
    && c.pointeeFile.Terminated? && c.pointeeFile.id in t
    && w.value == t[c.pointeeFile.id].base + c.pointeeOffset && t[c.pointeeFile.id].Holds(w.value)
    && Representable(w.value, w.size)
  }

  /** ws are the writes of the WritePointer commands among the first k, in order. */
  ghost predicate WritesOf(directory: map<string, u16>, t: Tracker, script: seq<Command>, k: nat, ws: seq<Condensed>)
    requires k <= |script|
  {
    && |ws| == WriteCount(script, k)
    && (forall i :: 0 <= i < k && script[i].WritePointer? ==>
          WriteCount(script, i) < |ws| && Carries(directory, t, script[i], ws[WriteCount(script, i)]))
  }

  /** What a command tells QEMU: nothing, unless it is a WritePointer that succeeds. */
  ghost predicate Tells(directory: map<string, u16>, t: Tracker, c: Command,
                        ws: seq<Condensed>, ws': seq<Condensed>, items: Items, items': Items)
  {
    if c.WritePointer? then
      && |ws'| == |ws| + 1 && ws'[..|ws|] == ws
      && var w := ws'[|ws|];
      && Carries(directory, t, c, w)
      && items' == WriteItem(items, w.item, w.offset, w.Data())
    else
      ws' == ws && items' == items
  }

  /** The state of the first pass after k commands; now is the tracker that they led to. */
  ghost predicate Progress(directory: map<string, u16>, restricted: set<string>, sizes: map<string, nat>,
                           script: seq<Command>, k: nat, hist: seq<Tracker>, now: Tracker, ws: seq<Condensed>,
                           items0: Items, items: Items)
  {
    && k <= |script|
    && Trace(script[..k], restricted, sizes, hist) && hist[k] == now
    && WritesOf(directory, hist[k], script, k, ws)
    && items == WriteAll(items0, ws)
  }

  lemma StartProgress(directory: map<string, u16>, restricted: set<string>, sizes: map<string, nat>,
                      script: seq<Command>, items: Items)
    ensures Progress(directory, restricted, sizes, script, 0, [map[]], map[], [], items, items)
  {
  }

  /** One more command; the writes so far stay right, because blobs do not move. */
  lemma Advance(directory: map<string, u16>, restricted: set<string>, sizes: map<string, nat>,
                script: seq<Command>, k: nat, hist: seq<Tracker>, now: Tracker, t: Tracker,
                ws: seq<Condensed>, ws': seq<Condensed>, items0: Items, items: Items, items': Items)
    requires Progress(directory, restricted, sizes, script, k, hist, now, ws, items0, items) && k < |script|
    requires WellPlaced(t) && Step(restricted, sizes, now, script[k], t)
    requires Tells(directory, t, script[k], ws, ws', items, items')
    ensures Progress(directory, restricted, sizes, script, k + 1, hist + [t], t, ws', items0, items')
  {
    hide Step, WellPlaced;
    assert script[..k + 1] == script[..k] + [script[k]];
    ExtendTrace(script[..k], restricted, sizes, hist, script[k], t);
    forall i | 0 <= i < k && script[i].WritePointer?
      ensures WriteCount(script, i) < |ws'| && Carries(directory, t, script[i], ws'[WriteCount(script, i)])
    {
      var w := ws[WriteCount(script, i)];
      assert w == ws'[..|ws|][WriteCount(script, i)];
      assert Carries(directory, hist[k], script[i], w);
      StepPlaces(restricted, sizes, hist[k], script[k], t, script[i].pointeeFile.id);
    }
  }

  /** The range of the WritePointer c in its fw_cfg file holds the address in the pointee that c asks for. */
  ghost predicate HoldsAddress(directory: map<string, u16>, t: Tracker, c: Command, items: Items) {
    && c.WritePointer?
    && c.pointerFile.Terminated? && c.pointerFile.id in directory && directory[c.pointerFile.id] in items
    && c.pointeeFile.Terminated? && c.pointeeFile.id in t
    && var file := items[directory[c.pointerFile.id]];
    && c.pointerOffset + c.pointerSize <= |file|
    && FromLE(file[c.pointerOffset..c.pointerOffset + c.pointerSize]) == t[c.pointeeFile.id].base + c.pointeeOffset
  }

  /** No command after the WritePointer i writes into its range. */
  ghost predicate LastTelling(directory: map<string, u16>, script: seq<Command>, i: nat)
    requires i < |script| && script[i].WritePointer?
  {
    forall m :: i < m < |script| && script[m].WritePointer? ==> TellsElsewhere(directory, script[i], script[m])
  }

  ghost predicate TellsElsewhere(directory: map<string, u16>, c: Command, d: Command)
    requires c.WritePointer? && d.WritePointer?
  {
    && c.pointerFile.Terminated? && c.pointerFile.id in directory
    && d.pointerFile.Terminated? && d.pointerFile.id in directory
    && (|| directory[c.pointerFile.id] != directory[d.pointerFile.id]
        || c.pointerOffset + c.pointerSize <= d.pointerOffset || d.pointerOffset + d.pointerSize <= c.pointerOffset)
  }

  lemma CarriedFits(directory: map<string, u16>, t: Tracker, c: Command, w: Condensed)
    requires Carries(directory, t, c, w)
    ensures w.value < Pow256(w.size)
  {
    Pow256Widths();
  }

  /** What QEMU reads after the write of a command is the address that the command asks for. */
  lemma TellingReads(directory: map<string, u16>, t: Tracker, c: Command, w: Condensed, items: Items)
    requires Carries(directory, t, c, w) && Reads(items, w)
    ensures HoldsAddress(directory, t, c, items)
  {
  }

  /** After the writes of a script, whose ranges exist, every range holds the address that was last written there. */
  lemma LastTellingHolds(directory: map<string, u16>, t: Tracker, script: seq<Command>, ws: seq<Condensed>,
                         before: Items, after: Items, i: nat)
    requires WritesOf(directory, t, script, |script|, ws) && ReadBack(ws, before, after)
    requires forall w :: w in ws ==> w.FitsIn(before)
    requires i < |script| && script[i].WritePointer? && LastTelling(directory, script, i)
    ensures HoldsAddress(directory, t, script[i], after)
  {
    var j := WriteCount(script, i);
    var w := ws[j];
    assert Carries(directory, t, script[i], w) && w in ws;
    CarriedFits(directory, t, script[i], w);
    forall m | j < m < |ws|
      ensures Disjoint(w, ws[m])
    {
      var n := WriteHasCommand(script, |script|, m);
      if n <= i {
        WriteCountMonotone(script, n, i);
      }
      assert TellsElsewhere(directory, script[i], script[n]);
      assert Carries(directory, t, script[n], ws[m]);
    }
    TellingReads(directory, t, script[i], w, after);
  }

  /** Byte i of the item was covered by one of the writes. */
  ghost predicate Covered(ws: seq<Condensed>, item: u16, i: int) {
    exists j :: 0 <= j < |ws| && ws[j].item == item && ws[j].offset <= i < ws[j].offset + ws[j].size
  }

  lemma {:induction false} UncoveredUnchanged(items: Items, ws: seq<Condensed>, item: u16, i: nat)
    requires item in items && i < |items[item]| && !Covered(ws, item, i)
    ensures WriteAll(items, ws)[item][i] == items[item][i]
  {
    if ws != [] {
      var front := ws[..|ws| - 1];
      assert forall j :: 0 <= j < |front| ==> front[j] == ws[j];
      assert !Covered(front, item, i);
      UncoveredUnchanged(items, front, item, i);
      assert ws[|ws| - 1].item == item ==> !(ws[|ws| - 1].offset <= i < ws[|ws| - 1].offset + ws[|ws| - 1].size);
    }
  }

  /** items is items0 with every range that ws covers zeroed. */
  ghost predicate Revoked(items0: Items, ws: seq<Condensed>, items: Items) {
    && items.Keys == items0.Keys
    && (forall k :: k in items0 ==> |items[k]| == |items0[k]|)
    && (forall k, i :: k in items0 && 0 <= i < |items0[k]| ==>
          items[k][i] == if Covered(ws, k, i) then 0 else items0[k][i])
  }

  /** Every write has its command. */
  lemma {:induction false} WriteHasCommand(script: seq<Command>, k: nat, j: nat) returns (i: nat)
    requires k <= |script| && j < WriteCount(script, k)
    ensures i < k && script[i].WritePointer? && WriteCount(script, i) == j
  {
    if script[k - 1].WritePointer? && j == WriteCount(script, k - 1) {
      i := k - 1;
    } else {
      i := WriteHasCommand(script, k - 1, j);
    }
  }

  /** Undoing from the last write on: the ranges of ws[n..] are zero, untouched bytes are as before. */
  ghost predicate Revoking(items0: Items, ws: seq<Condensed>, n: nat, items: Items)
    requires n <= |ws|
  {
    && items.Keys == items0.Keys
    && (forall k :: k in items0 ==> |items[k]| == |items0[k]|)
    && (forall k, i :: k in items0 && 0 <= i < |items0[k]| && Covered(ws[n..], k, i) ==> items[k][i] == 0)
    && (forall k, i :: k in items0 && 0 <= i < |items0[k]| && !Covered(ws, k, i) ==> items[k][i] == items0[k][i])
  }

  lemma StartRevoking(items0: Items, ws: seq<Condensed>)
    ensures Revoking(items0, ws, |ws|, WriteAll(items0, ws))
  {
    forall k, i | k in items0 && 0 <= i < |items0[k]| && !Covered(ws, k, i)
      ensures WriteAll(items0, ws)[k][i] == items0[k][i]
    {
      UncoveredUnchanged(items0, ws, k, i);
    }
  }

  lemma RevokeOne(items0: Items, ws: seq<Condensed>, n: nat, items: Items)
    requires n < |ws| && Revoking(items0, ws, n + 1, items) && ws[n].FitsIn(items)
    ensures Revoking(items0, ws, n, WriteItem(items, ws[n].item, ws[n].offset, ToLE(0, ws[n].size)))
  {
    var w := ws[n];
    var items' := WriteItem(items, w.item, w.offset, ToLE(0, w.size));
    ToLEZero(w.size);
    forall k, i | k in items0 && 0 <= i < |items0[k]| && Covered(ws[n..], k, i)
      ensures items'[k][i] == 0
    {
      if !(w.item == k && w.offset <= i < w.offset + w.size) {
        var j :| 0 <= j < |ws[n..]| && ws[n..][j].item == k
                 && ws[n..][j].offset <= i < ws[n..][j].offset + ws[n..][j].size;
        assert ws[n..][j] == ws[n + 1..][j - 1];
        assert Covered(ws[n + 1..], k, i);
      }
    }
    forall k, i | k in items0 && 0 <= i < |items0[k]| && !Covered(ws, k, i)
      ensures items'[k][i] == items0[k][i]
    {
      assert !(w.item == k && w.offset <= i < w.offset + w.size);
    }
  }

  lemma DoneRevoking(items0: Items, ws: seq<Condensed>, items: Items)
    requires Revoking(items0, ws, 0, items)
    ensures Revoked(items0, ws, items)
  {
    assert ws[0..] == ws;
  }

  /** Undoing the last write leaves the writes of the commands before it. */
  lemma WritesBefore(directory: map<string, u16>, t: Tracker, script: seq<Command>, k: nat, ws: seq<Condensed>)
    requires k < |script| && WritesOf(directory, t, script, k + 1, ws)
    ensures WriteCount(script, k) <= |ws| && WritesOf(directory, t, script, k, ws[..WriteCount(script, k)])
    ensures script[k].WritePointer? ==> |ws| == WriteCount(script, k) + 1
  {
    var n := WriteCount(script, k);
    assert WriteCount(script, k + 1) == n + if script[k].WritePointer? then 1 else 0;
    var front := ws[..n];
    forall i | 0 <= i < k && script[i].WritePointer?
      ensures WriteCount(script, i) < |front| && Carries(directory, t, script[i], front[WriteCount(script, i)])
    {
      OneWrite(directory, t, script, k, ws, i);
    }
  }

  lemma OneWrite(directory: map<string, u16>, t: Tracker, script: seq<Command>, k: nat, ws: seq<Condensed>, i: nat)
    requires i < k <= |script| && script[i].WritePointer? && WriteCount(script, k) <= |ws|
    requires WriteCount(script, i) < |ws| && Carries(directory, t, script[i], ws[WriteCount(script, i)])
    ensures WriteCount(script, i) < WriteCount(script, k)
    ensures Carries(directory, t, script[i], ws[..WriteCount(script, k)][WriteCount(script, i)])
  {
    assert WriteCount(script, i + 1) == WriteCount(script, i) + 1;
    WriteCountMonotone(script, i + 1, k);
  }
}
