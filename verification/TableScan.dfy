/**
 The second pass over a script, seen as a walk over findings: for every command,
 the address that its pointer holds and what was recognised there.
 */
module TableScan {
  import opened Bytes
  import opened LinkerScript
  import opened AcpiTables

  /** Nothing for a command that is no AddPointer, or whose field does not point into its pointee. */
  datatype Finding = Nothing | Lead(address: nat, id: string, target: Target)

  ghost function FindingOf(t: Tracker, c: Command): (f: Finding)
    ensures f.Lead? <==> Points(t, c)
    ensures f.Lead? ==> f.id in t
    ensures f.Lead? ==>
              && f.id == c.pointeeFile.id
              && f.address == FromLE(t[c.pointerFile.id].bytes[c.pointerOffset..c.pointerOffset + c.pointerSize])
              && t[f.id].base <= f.address && f.target == Classify(t[f.id].bytes, f.address - t[f.id].base)
  {
    if Points(t, c) then Lead(FieldValue(t, c), c.pointeeFile.id, TargetOf(t, c)) else Nothing
  }

  ghost function Findings(script: seq<Command>, t: Tracker): (f: seq<Finding>)
    ensures |f| == |script|
    ensures forall i :: 0 <= i < |f| ==> f[i] == FindingOf(t, script[i])
  {
    seq(|script|, i requires 0 <= i < |script| => FindingOf(t, script[i]))
  }

  /** An address stands for one thing only. */
  ghost predicate Coherent(f: seq<Finding>) {
    forall i, j :: 0 <= i < |f| && 0 <= j < |f| && f[i].Lead? && f[j].Lead? && f[i].address == f[j].address ==>
                     f[i] == f[j]
  }

  /** Blobs lie apart, so two pointers that hold the same address lead into the same blob. */
  lemma FindingsCoherent(script: seq<Command>, t: Tracker)
    requires WellPlaced(t)
    ensures Coherent(Findings(script, t))
  {
    var f := Findings(script, t);
    forall i, j | 0 <= i < |f| && 0 <= j < |f| && f[i].Lead? && f[j].Lead? && f[i].address == f[j].address
      ensures f[i] == f[j]
    {
      SameTarget(t, script[i], script[j]);
    }
  }

  lemma SameTarget(t: Tracker, c: Command, d: Command)
    requires WellPlaced(t) && Points(t, c) && Points(t, d) && FieldValue(t, c) == FieldValue(t, d)
    ensures c.pointeeFile.id == d.pointeeFile.id && TargetOf(t, c) == TargetOf(t, d)
  {
    assert !Apart(t[c.pointeeFile.id], t[d.pointeeFile.id]);
  }

  function Marked(t: Tracker, id: string): Tracker
    requires id in t
  {
    t[id := t[id].(hostsOnlyTableData := false)]
  }

  /** What a command does in the second pass when it succeeds; held are the tables installed so far. */
  ghost predicate Looked(f: Finding, t: Tracker, seen: set<nat>, held: seq<(nat, nat)>,
                         t': Tracker, seen': set<nat>, held': seq<(nat, nat)>)
  {
    && f.Lead? && f.id in t
    && seen' == seen + {f.address}
    && (t' == if f.address !in seen && f.target.Opaque? then Marked(t, f.id) else t)
    && (held' == if f.address !in seen && f.target.Table? then held + [(f.address, f.target.length)] else held)
  }

  /** One of the first k commands leads to something in blob id that is not a recognised table. */
  ghost predicate HoldsOpaque(f: seq<Finding>, k: nat, id: string)
    requires k <= |f|
  {
    exists i :: 0 <= i < k && f[i].Lead? && f[i].id == id && f[i].target.Opaque?
  }

  /** One of the first k commands leads to the address v. */
  ghost predicate Reached(f: seq<Finding>, k: nat, v: nat)
    requires k <= |f|
  {
    exists i :: 0 <= i < k && f[i].Lead? && f[i].address == v
  }

  /** One of the first k commands leads to the table p, an address and a length. */
  ghost predicate FindsTable(f: seq<Finding>, k: nat, p: (nat, nat))
    requires k <= |f|
  {
    exists i :: 0 <= i < k && f[i].Lead? && f[i].address == p.0 && f[i].target == Table(p.1)
  }

  /** now is the tracker t with the blobs marked that the first k commands prove to hold more than tables. */
  ghost predicate MarkedSince(f: seq<Finding>, k: nat, t: Tracker, now: Tracker)
    requires k <= |f|
  {
    && now.Keys == t.Keys
    && (forall id {:trigger id in t} :: id in t ==>
          now[id] == t[id].(hostsOnlyTableData := t[id].hostsOnlyTableData && !HoldsOpaque(f, k, id)))
  }

  /** held lists the tables that the first k commands lead to, each address once. */
  ghost predicate FoundExactly(f: seq<Finding>, k: nat, held: seq<(nat, nat)>)
    requires k <= |f|
  {
    && (forall p {:trigger FindsTable(f, k, p)} :: p in held <==> FindsTable(f, k, p))
    && (forall a, b :: 0 <= a < b < |held| ==> held[a].0 != held[b].0)
  }

  /** The state of the second pass after k commands; t is the tracker that the first pass left. */
  ghost predicate Scanned(f: seq<Finding>, k: nat, t: Tracker, now: Tracker, seen: set<nat>, held: seq<(nat, nat)>) {
    && k <= |f|
    && (forall v: nat {:trigger Reached(f, k, v)} :: v in seen <==> Reached(f, k, v))
    && MarkedSince(f, k, t, now)
    && FoundExactly(f, k, held)
  }

  lemma ScanStart(f: seq<Finding>, t: Tracker)
    ensures Scanned(f, 0, t, t, {}, [])
  {
  }

  /** Marking blobs changes neither where pointers lead nor what is found there. */
  lemma SameFinding(f: seq<Finding>, k: nat, t: Tracker, now: Tracker, c: Command)
    requires k <= |f| && MarkedSince(f, k, t, now)
    ensures FindingOf(now, c) == FindingOf(t, c)
    ensures c.AddPointer? ==> (FieldExists(now, c) <==> FieldExists(t, c))
  {
  }

  lemma ReachedNext(f: seq<Finding>, k: nat, v: nat)
    requires k < |f|
    ensures Reached(f, k + 1, v) <==> Reached(f, k, v) || (f[k].Lead? && f[k].address == v)
  {
  }

  lemma OpaqueNext(f: seq<Finding>, k: nat, id: string)
    requires k < |f|
    ensures HoldsOpaque(f, k + 1, id) <==>
            HoldsOpaque(f, k, id) || (f[k].Lead? && f[k].id == id && f[k].target.Opaque?)
  {
  }

  lemma TableNext(f: seq<Finding>, k: nat, p: (nat, nat))
    requires k < |f|
    ensures FindsTable(f, k + 1, p) <==>
            FindsTable(f, k, p) || (f[k].Lead? && f[k].address == p.0 && f[k].target == Table(p.1))
  {
  }

  /** An address seen before was handled before. */
  lemma SeenBefore(f: seq<Finding>, k: nat)
    requires k < |f| && Coherent(f) && f[k].Lead? && Reached(f, k, f[k].address)
    ensures f[k].target.Opaque? ==> HoldsOpaque(f, k, f[k].id)
    ensures f[k].target.Table? ==> FindsTable(f, k, (f[k].address, f[k].target.length))
  {
    var i :| 0 <= i < k && f[i].Lead? && f[i].address == f[k].address;
    assert f[i] == f[k];
  }

  lemma LookMarks(f: seq<Finding>, k: nat, t: Tracker, now: Tracker, now': Tracker)
    requires k < |f| && Coherent(f) && f[k].Lead? && f[k].id in now && MarkedSince(f, k, t, now)
    requires now' == if !Reached(f, k, f[k].address) && f[k].target.Opaque? then Marked(now, f[k].id) else now
    ensures MarkedSince(f, k + 1, t, now')
  {
    if Reached(f, k, f[k].address) {
      SeenBefore(f, k);
    }
    forall id | id in t
      ensures now'[id] == t[id].(hostsOnlyTableData := t[id].hostsOnlyTableData && !HoldsOpaque(f, k + 1, id))
    {
      OpaqueNext(f, k, id);
    }
  }

  lemma LookFinds(f: seq<Finding>, k: nat, held: seq<(nat, nat)>, held': seq<(nat, nat)>)
    requires k < |f| && Coherent(f) && f[k].Lead? && FoundExactly(f, k, held)
    requires held' == if !Reached(f, k, f[k].address) && f[k].target.Table?
                      then held + [(f[k].address, f[k].target.length)] else held
    ensures FoundExactly(f, k + 1, held')
  {
    if Reached(f, k, f[k].address) {
      SeenBefore(f, k);
    }
    forall p: (nat, nat)
      ensures p in held' <==> FindsTable(f, k + 1, p)
    {
      TableNext(f, k, p);
    }
    forall a | 0 <= a < |held|
      ensures Reached(f, k, held[a].0)
    {
      assert held[a] in held;
      assert FindsTable(f, k, held[a]);
    }
  }

  /** One more command of the second pass. */
  lemma LookStep(f: seq<Finding>, k: nat, t: Tracker, now: Tracker, seen: set<nat>, held: seq<(nat, nat)>,
                 now': Tracker, seen': set<nat>, held': seq<(nat, nat)>)
    requires Coherent(f) && Scanned(f, k, t, now, seen, held) && k < |f|
    requires Looked(f[k], now, seen, held, now', seen', held')
    ensures Scanned(f, k + 1, t, now', seen', held')
  {
    assert f[k].address in seen <==> Reached(f, k, f[k].address);
    LookMarks(f, k, t, now, now');
    LookFinds(f, k, held, held');
    forall v: nat
      ensures v in seen' <==> Reached(f, k + 1, v)
    {
      ReachedNext(f, k, v);
    }
  }

  /** Other commands mean nothing to the second pass. */
  lemma SkipStep(f: seq<Finding>, k: nat, t: Tracker, now: Tracker, seen: set<nat>, held: seq<(nat, nat)>)
    requires Scanned(f, k, t, now, seen, held) && k < |f| && f[k].Nothing?
    ensures Scanned(f, k + 1, t, now, seen, held)
  {
    forall v: nat
      ensures v in seen <==> Reached(f, k + 1, v)
    {
      ReachedNext(f, k, v);
    }
    forall id | id in t
      ensures HoldsOpaque(f, k + 1, id) <==> HoldsOpaque(f, k, id)
    {
      OpaqueNext(f, k, id);
    }
    forall p: (nat, nat)
      ensures p in held <==> FindsTable(f, k + 1, p)
    {
      TableNext(f, k, p);
    }
  }

  // ----- Keys of installed tables -----

  /** Tables held by the ACPI table protocol, by key: address and length. */
  type Tables = map<nat, (nat, nat)>

  /** tables is tables0 with the tables held, under the new keys. */
  ghost predicate InstalledUnder(keys: seq<nat>, held: seq<(nat, nat)>, tables0: Tables, tables: Tables) {
    && |keys| == |held|
    && (forall a :: 0 <= a < |keys| ==> keys[a] in tables && keys[a] !in tables0 && tables[keys[a]] == held[a])
    && (forall a, b :: 0 <= a < b < |keys| ==> keys[a] != keys[b])
    && (forall x :: x in tables0 ==> x in tables && tables[x] == tables0[x])
    && (forall x :: x in tables ==> x in tables0 || x in keys)
  }

  lemma InstallOne(keys: seq<nat>, held: seq<(nat, nat)>, tables0: Tables, tables: Tables, key: nat, table: (nat, nat))
    requires InstalledUnder(keys, held, tables0, tables) && key !in tables
    ensures InstalledUnder(keys + [key], held + [table], tables0, tables[key := table])
  {
  }

  lemma InstalledSizes(keys: seq<nat>, held: seq<(nat, nat)>, tables0: Tables, tables: Tables)
    requires InstalledUnder(keys, held, tables0, tables)
    ensures |held| == |keys|
  {
  }

  lemma NoneInstalled(held: seq<(nat, nat)>, tables0: Tables, tables: Tables)
    requires InstalledUnder([], held, tables0, tables)
    ensures tables == tables0
  {
  }

  lemma UninstallOne(keys: seq<nat>, held: seq<(nat, nat)>, tables0: Tables, tables: Tables)
    requires |keys| > 0 && InstalledUnder(keys, held, tables0, tables)
    ensures var n := |keys| - 1;
            InstalledUnder(keys[..n], held[..n], tables0, tables - {keys[n]})
  {
  }
}
