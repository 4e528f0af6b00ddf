/**
 Reading a directory of the HFS+ catalog entry by entry, OpenHfsPlus/fsw_hfsplus.c
 and fsw_core.c: the handle's position counts the records of the directory that
 have been passed, thread record included.
 */
module Directory {
  import opened Words
  import opened CatalogKeys
  import opened BTree

  const FOLDER_RECORD := 1
  const FILE_RECORD := 2

  predicate IsEntry(r: Record) {
    r.recordType == FILE_RECORD || r.recordType == FOLDER_RECORD
  }

  // ----- What a directory holds -----

  /** The records whose key has parent p, in key order. */
  ghost function ChildrenOf(rs: seq<Record>, p: u32): seq<Record> {
    if rs == [] then []
    else (if rs[0].key.parentID == p then [rs[0]] else []) + ChildrenOf(rs[1..], p)
  }

  /** The files and folders among some records. */
  ghost function Entries(rs: seq<Record>): seq<Record> {
    if rs == [] then [] else (if IsEntry(rs[0]) then [rs[0]] else []) + Entries(rs[1..])
  }

  /** A directory is found by its thread record, the one with the empty name. */
  ghost predicate HasThread(rs: seq<Record>, p: u32) {
    Contains(rs, Rank(Key(p, [])))
  }

  /** The entries not yet returned at position pos. */
  ghost function Remaining(rs: seq<Record>, p: u32, pos: nat): seq<Record> {
    var c := ChildrenOf(rs, p);
    if HasThread(rs, p) && pos <= |c| then Entries(c[pos..]) else []
  }

  /** What the directory holds: the files and folders with that parent, or nothing without a thread record. */
  ghost function Listing(rs: seq<Record>, p: u32): seq<Record> {
    if HasThread(rs, p) then Entries(ChildrenOf(rs, p)) else []
  }

  // ----- The children are one run of records -----

  /** The records from s on begin with those of parent p, n of them. */
  ghost predicate IsRun(rs: seq<Record>, s: nat, n: nat, p: u32) {
    s + n <= |rs|
    && (forall i :: s <= i < s + n ==> rs[i].key.parentID == p)
    && (s + n < |rs| ==> rs[s + n].key.parentID != p)
  }

  /** The rank of a key lies between its parent ID and the next one. */
  lemma RankRange(k: Key)
    ensures k.parentID as real <= Rank(k) < k.parentID as real + 1.0
    ensures Rank(k) == k.parentID as real <==> k.name == []
  {
    FractionBounds(Folded(k.name));
  }

  ghost predicate ByParent(rs: seq<Record>) {
    forall i, j :: 0 <= i < j < |rs| ==> rs[i].key.parentID <= rs[j].key.parentID
  }

  lemma SortedByParent(rs: seq<Record>)
    requires Sorted(rs)
    ensures ByParent(rs)
  {
    forall i, j | 0 <= i < j < |rs|
      ensures rs[i].key.parentID <= rs[j].key.parentID
    {
      RankRange(rs[i].key);
      RankRange(rs[j].key);
    }
  }

  lemma {:induction false} NoChildren(rs: seq<Record>, p: u32)
    requires forall i :: 0 <= i < |rs| ==> rs[i].key.parentID != p
    ensures ChildrenOf(rs, p) == []
  {
    if rs != [] {
      NoChildren(rs[1..], p);
    }
  }

  lemma {:induction false} LeadingChildren(rs: seq<Record>, p: u32) returns (n: nat)
    requires ByParent(rs) && forall i :: 0 <= i < |rs| ==> rs[i].key.parentID >= p
    ensures IsRun(rs, 0, n, p) && ChildrenOf(rs, p) == rs[..n]
  {
    if rs == [] || rs[0].key.parentID != p {
      n := 0;
      NoChildren(rs, p);
    } else {
      var m := LeadingChildren(rs[1..], p);
      n := m + 1;
      assert rs[..n] == [rs[0]] + rs[1..][..m];
      assert forall i :: 0 < i < n ==> rs[i] == rs[1..][i - 1];
      assert n < |rs| ==> rs[n] == rs[1..][m];
    }
  }

  lemma {:induction false} ChildrenConcat(a: seq<Record>, b: seq<Record>, p: u32)
    ensures ChildrenOf(a + b, p) == ChildrenOf(a, p) + ChildrenOf(b, p)
  {
    if a == [] {
      assert a + b == b;
    } else {
      assert (a + b)[0] == a[0] && (a + b)[1..] == a[1..] + b;
      ChildrenConcat(a[1..], b, p);
      Assoc(if a[0].key.parentID == p then [a[0]] else [], ChildrenOf(a[1..], p), ChildrenOf(b, p));
    }
  }

  lemma AroundThread(rs: seq<Record>, s: nat, p: u32)
    requires Sorted(rs) && s < |rs| && Rank(rs[s].key) == Rank(Key(p, []))
    ensures forall i :: 0 <= i < s ==> rs[i].key.parentID != p
    ensures forall i :: s <= i < |rs| ==> rs[i].key.parentID >= p
  {
    RankRange(Key(p, []));
    forall i | 0 <= i < |rs|
      ensures i < s ==> rs[i].key.parentID != p
      ensures s <= i ==> rs[i].key.parentID >= p
    {
      RankRange(rs[i].key);
    }
  }

  lemma ShiftRun(rs: seq<Record>, s: nat, n: nat, p: u32)
    requires s <= |rs| && IsRun(rs[s..], 0, n, p)
    ensures IsRun(rs, s, n, p) && rs[s..][..n] == rs[s..s + n]
  {
    forall i | s <= i < |rs|
      ensures rs[i] == rs[s..][i - s]
    {
    }
  }

  /** From the thread record on come the children, all of them. */
  lemma ChildrenFrom(rs: seq<Record>, s: nat, p: u32) returns (n: nat)
    requires Sorted(rs) && s < |rs| && Rank(rs[s].key) == Rank(Key(p, []))
    ensures IsRun(rs, s, n, p) && ChildrenOf(rs, p) == rs[s..s + n]
  {
    AroundThread(rs, s, p);
    assert rs == rs[..s] + rs[s..];
    ChildrenConcat(rs[..s], rs[s..], p);
    NoChildren(rs[..s], p);
    SortedByParent(rs);
    n := LeadingChildren(rs[s..], p);
    ShiftRun(rs, s, n, p);
  }

  // ----- One reading -----

  datatype Outcome = Entry(record: Record) | NoMore | Failed | Unsupported | WildRead

  /** Between positions pos and pos' there is no entry. */
  ghost predicate Barren(c: seq<Record>, pos: nat, pos': nat) {
    pos <= pos' && forall i :: pos <= i < pos' && i < |c| ==> !IsEntry(c[i])
  }

  lemma {:induction false} SkipBarren(c: seq<Record>, pos: nat, pos': nat)
    requires Barren(c, pos, pos') && pos' <= |c|
    ensures Entries(c[pos..]) == Entries(c[pos'..])
    decreases pos' - pos
  {
    if pos < pos' {
      assert c[pos..][1..] == c[pos + 1..];
      SkipBarren(c, pos + 1, pos');
    }
  }

  /** What one call does: hand out the next entry, or say that there is none and leave the position. */
  ghost predicate ReadStep(rs: seq<Record>, p: u32, pos: nat, r: Outcome, pos': nat) {
    match r
    case Entry(record) => [record] + Remaining(rs, p, pos') == Remaining(rs, p, pos)
    case NoMore => Remaining(rs, p, pos) == [] && pos' == pos
    case _ => pos' == pos
  }

  /** The leaves are linked in order, and the last one ends the chain with node number 0. */
  ghost predicate Linked(t: Tree, h: nat)
    requires Shape(t, t.root, h)
  {
    LeavesExist(t, t.root, h);
    var ns := Leaves(t, t.root, h);
    forall j :: 0 <= j < |ns| ==> LinkedAt(t, ns, j)
  }

  ghost predicate LinkedAt(t: Tree, ns: seq<u32>, j: nat)
    requires Known(t, ns) && j < |ns|
  {
    ns[j] != 0 && t.nodes[ns[j]].fLink == if j + 1 < |ns| then ns[j + 1] else 0
  }

  datatype Fetched = Success | Ended | ReadFailed

  /** Progress over the children c: counter of them passed, none an entry that skip0 asked for. */
  ghost predicate Scanning(c: seq<Record>, skip0: nat, skip: nat, counter: nat) {
    counter <= skip && counter <= |c| && Barren(c, skip0, skip) && (skip == skip0 || skip == counter)
  }

  /** What the scan must deliver: the first entry at or after position skip0. */
  ghost predicate Delivers(c: seq<Record>, skip0: nat, f: Fetched, node: Node, rec: nat, skip: nat) {
    match f
    case Success =>
      rec < |node.records| && skip0 < skip <= |c| && Barren(c, skip0, skip - 1)
      && c[skip - 1] == node.records[rec] && IsEntry(node.records[rec])
    case Ended => Barren(c, skip0, |c|) || skip0 > |c|
    case ReadFailed => true
  }

  /** The record at hand and the one that counter points to are the same. */
  lemma AtCounter(t: Tree, h: nat, leaf: nat, i: nat, s: nat, n: nat, p: u32, counter: nat)
    requires WellFormed(t, h) && IsRun(AllRecords(t, h), s, n, p) && counter <= n
    requires Known(t, Leaves(t, t.root, h)) && leaf < |Leaves(t, t.root, h)|
    requires s + counter == Before(t, Leaves(t, t.root, h), leaf) + i
    requires i < |t.nodes[Leaves(t, t.root, h)[leaf]].records|
    ensures var r := t.nodes[Leaves(t, t.root, h)[leaf]].records[i];
      if r.key.parentID == p then counter < n && AllRecords(t, h)[s..s + n][counter] == r else counter == n
  {
    RecordAt(t, Leaves(t, t.root, h), leaf, i);
  }

  lemma PastLeaf(t: Tree, h: nat, leaf: nat)
    requires WellFormed(t, h) && Linked(t, h) && Known(t, Leaves(t, t.root, h)) && leaf < |Leaves(t, t.root, h)|
    ensures var ns := Leaves(t, t.root, h);
      Before(t, ns, leaf) + |t.nodes[ns[leaf]].records| == Before(t, ns, leaf + 1)
    ensures Before(t, Leaves(t, t.root, h), |Leaves(t, t.root, h)|) == |AllRecords(t, h)|
    ensures var ns := Leaves(t, t.root, h);
      if leaf + 1 == |ns| then t.nodes[ns[leaf]].fLink == 0
      else t.nodes[ns[leaf]].fLink == ns[leaf + 1] && ns[leaf + 1] in t.nodes && ns[leaf + 1] != 0
  {
    var ns := Leaves(t, t.root, h);
    RecordAt(t, ns, leaf, 0);
    assert ns[..|ns|] == ns;
    assert LinkedAt(t, ns, leaf);
    if leaf + 1 < |ns| {
      assert LinkedAt(t, ns, leaf + 1) && ns[leaf + 1] in ns;
    }
  }

  /** fsw_hfsplus_btree_get_rec: from record recNum of the loaded node on, along the chain of leaves. */
  method GetRec(t: Tree, p: u32, loaded: Node, recNum: nat, skip0: nat, ghost h: nat, ghost at: nat, ghost n: nat)
    returns (f: Fetched, node: Node, rec: nat, skip: nat, ghost last: nat)
    requires WellFormed(t, h) && Linked(t, h) && |AllRecords(t, h)| < 0x1_0000_0000
    requires IsRecord(t, h, at, loaded, recNum)
    requires Known(t, Leaves(t, t.root, h))
             && IsRun(AllRecords(t, h), Before(t, Leaves(t, t.root, h), at) + recNum, n, p)
    ensures var s := Before(t, Leaves(t, t.root, h), at) + recNum;
      Delivers(AllRecords(t, h)[s..s + n], skip0, f, node, rec, skip)
    // the leaves up to last have been read, and a failure is the next one's
    ensures var ns := Leaves(t, t.root, h);
      && at <= last < |ns| && (forall l :: at < l <= last ==> ns[l] !in t.unreadable)
      && (f.Success? ==> node == t.nodes[ns[last]])
      && (f.ReadFailed? ==> last + 1 < |ns| && ns[last + 1] in t.unreadable)
    ensures f.ReadFailed? ==> !Intact(t)
  {
    hide Linked, Sorted, Rank, Shape, Leaves, Before, LinkedAt;
    ghost var ns := Leaves(t, t.root, h);
    ghost var s := Before(t, ns, at) + recNum;
    ghost var c := AllRecords(t, h)[s..s + n];
    ghost var leaf := at;
    node, rec, skip := loaded, recNum, skip0;
    last := at;
    var counter: u32 := 0;
    while true
      invariant leaf < |ns| && node == t.nodes[ns[leaf]] && rec <= |node.records|
      invariant at <= last == leaf && forall l :: at < l <= leaf ==> ns[l] !in t.unreadable
      invariant s + counter == Before(t, ns, leaf) + rec
      invariant Scanning(c, skip0, skip, counter)
      decreases |ns| - leaf
    {
      var i := rec;
      while i < |node.records|
        invariant rec <= i <= |node.records|
        invariant s + counter == Before(t, ns, leaf) + i
        invariant Scanning(c, skip0, skip, counter)
      {
        AtCounter(t, h, leaf, i, s, n, p, counter);
        var r := node.records[i];
        if r.key.parentID != p {
          return Ended, node, rec, skip, last;
        }
        if counter == skip {
          skip := skip + 1;
          if IsEntry(r) {
            return Success, node, i, skip, last;
          }
        }
        counter := counter + 1;
        i := i + 1;
      }
      PastLeaf(t, h, leaf);
      if node.fLink == 0 {
        return Ended, node, rec, skip, last;
      }
      var next := node.fLink;
      if next in t.unreadable {
        return ReadFailed, node, 0, skip, last;
      }
      leaf, last := leaf + 1, last + 1;
      node, rec := t.nodes[next], 0;
    }
  }

  // ----- The handle -----

  /** A storage handle on the directory with the given dnode ID. */
  class Handle {
    const dir: u32
    const isDirectory: bool
    var pos: nat

    constructor (dir: u32, isDirectory: bool)
      ensures this.dir == dir && this.isDirectory == isDirectory && pos == 0
    {
      this.dir, this.isDirectory, pos := dir, isDirectory, 0;
    }

    /** fsw_hfsplus_dir_read: may leave the position changed when it fails. */
    method DirRead(t: Tree, memory: bool, ghost h: nat) returns (r: Outcome)
      requires WellFormed(t, h) && Linked(t, h) && |AllRecords(t, h)| < 0x1_0000_0000
      modifies this
      ensures r.Entry? || r.NoMore? ==>
                ReadStep(AllRecords(t, h), dir, old(pos), r, if r.Entry? then pos else old(pos))
      ensures r.Failed? ==> !memory || !Intact(t)
      ensures r.WildRead? ==> BelowAll(AllRecords(t, h), Rank(Key(dir, [])))
      ensures r.Entry? || r.NoMore? ==> !BelowAll(AllRecords(t, h), Rank(Key(dir, [])))
      ensures !r.Unsupported?
    {
      var exhausted: bool := *;
      if !memory && exhausted {
        return Failed;
      }
      WellFormedEnds(t, h, Target(ByKey, Key(dir, [])));
      var found := Search(t, ByKey, Key(dir, []));
      assert Answers(t, h, Target(ByKey, Key(dir, [])), found);
      match found {
        case Unreadable => return Failed;
        case Corrupted => return Failed;
        case OutOfNode => return WildRead;
        case NotFound => return NoMore;
        case Found(loaded, recNum) =>
          LeavesExist(t, t.root, h);
          ghost var leaf: nat :| IsRecord(t, h, leaf, loaded, recNum);
          ghost var n := ThreadFound(t, h, leaf, recNum, dir);
          ghost var last;
          var f, node, rec, skip;
          f, node, rec, skip, last := GetRec(t, dir, loaded, recNum, pos, h, leaf, n);
          Delivered(AllRecords(t, h), dir, pos, f, node, rec, skip);
          pos := skip;
          match f {
            case Ended => return NoMore;
            case ReadFailed => return Failed;
            case Success =>
              exhausted := *;
              if !memory && exhausted {
                return Failed;
              }
              return Entry(node.records[rec]);
          }
      }
    }

    /** fsw_dnode_dir_read: a call that fails puts the position back. */
    method DnodeDirRead(t: Tree, memory: bool, ghost h: nat) returns (r: Outcome)
      requires WellFormed(t, h) && Linked(t, h) && |AllRecords(t, h)| < 0x1_0000_0000
      modifies this
      ensures ReadStep(AllRecords(t, h), dir, old(pos), r, pos)
      ensures r.Unsupported? <==> !isDirectory
      ensures r.Failed? ==> !memory || !Intact(t)
      ensures r.WildRead? ==> BelowAll(AllRecords(t, h), Rank(Key(dir, [])))
      ensures r.Entry? || r.NoMore? ==> !BelowAll(AllRecords(t, h), Rank(Key(dir, [])))
    {
      if !isDirectory {
        return Unsupported;
      }
      var saved := pos;
      r := DirRead(t, memory, h);
      if !r.Entry? {
        pos := saved;
      }
    }
  }

  /**
   What a host driver does to list a directory: it calls until the end is reported.
   On an intact tree it gets exactly the listing, unless the directory's thread key
   is below every key of the tree.
   */
  method ReadDirectory(sh: Handle, t: Tree, ghost h: nat) returns (entries: seq<Record>, last: Outcome)
    requires WellFormed(t, h) && Linked(t, h) && |AllRecords(t, h)| < 0x1_0000_0000 && Intact(t)
    requires sh.isDirectory && sh.pos == 0
    modifies sh
    ensures last.NoMore? || last.WildRead?
    ensures last.WildRead? <==> BelowAll(AllRecords(t, h), Rank(Key(sh.dir, [])))
    ensures last.NoMore? ==> entries == Listing(AllRecords(t, h), sh.dir)
  {
    ghost var all := AllRecords(t, h);
    entries, last := [], Failed;
    assert ChildrenOf(all, sh.dir)[0..] == ChildrenOf(all, sh.dir);
    while true
      invariant entries + Remaining(all, sh.dir, sh.pos) == Listing(all, sh.dir)
      decreases |Remaining(all, sh.dir, sh.pos)|
    {
      ghost var rest := Remaining(all, sh.dir, sh.pos);
      last := sh.DnodeDirRead(t, true, h);
      if !last.Entry? {
        return;
      }
      NextEntry(entries, last.record, Remaining(all, sh.dir, sh.pos), rest);
      entries := entries + [last.record];
    }
  }

  lemma NextEntry(done: seq<Record>, r: Record, rest': seq<Record>, rest: seq<Record>)
    requires [r] + rest' == rest
    ensures done + [r] + rest' == done + rest && |rest'| < |rest|
  {
  }

  /** The thread record found begins the run of children. */
  lemma ThreadFound(t: Tree, h: nat, leaf: nat, rec: nat, p: u32) returns (n: nat)
    requires WellFormed(t, h) && Known(t, Leaves(t, t.root, h)) && leaf < |Leaves(t, t.root, h)|
    requires rec < |t.nodes[Leaves(t, t.root, h)[leaf]].records|
    requires Rank(t.nodes[Leaves(t, t.root, h)[leaf]].records[rec].key) == Rank(Key(p, []))
    ensures var s := Before(t, Leaves(t, t.root, h), leaf) + rec;
      IsRun(AllRecords(t, h), s, n, p) && ChildrenOf(AllRecords(t, h), p) == AllRecords(t, h)[s..s + n]
    ensures HasThread(AllRecords(t, h), p)
  {
    RecordAt(t, Leaves(t, t.root, h), leaf, rec);
    var s := Before(t, Leaves(t, t.root, h), leaf) + rec;
    n := ChildrenFrom(AllRecords(t, h), s, p);
    assert AllRecords(t, h)[s] in AllRecords(t, h);
  }

  /** The first entry at or after a position is the first of those remaining there. */
  lemma Delivered(rs: seq<Record>, p: u32, pos: nat, f: Fetched, node: Node, rec: nat, skip: nat)
    requires HasThread(rs, p) && Delivers(ChildrenOf(rs, p), pos, f, node, rec, skip)
    ensures f.Success? ==> ReadStep(rs, p, pos, Entry(node.records[rec]), skip)
    ensures f.Ended? ==> ReadStep(rs, p, pos, NoMore, pos)
  {
    var c := ChildrenOf(rs, p);
    if f.Success? {
      SkipBarren(c, pos, skip - 1);
      assert c[skip - 1..][1..] == c[skip..];
    } else if f.Ended? && pos <= |c| {
      SkipBarren(c, pos, |c|);
    }
  }

  // ----- Whole iterations -----

  /** The records handed out by a series of calls, failed calls among them. */
  ghost function Collected(rs: seq<Outcome>): seq<Record> {
    if rs == [] then []
    else Collected(rs[..|rs| - 1]) + (if rs[|rs| - 1].Entry? then [rs[|rs| - 1].record] else [])
  }

  /** Calls in a row, position after position, from the start of the directory. */
  ghost predicate Iteration(all: seq<Record>, p: u32, ps: seq<nat>, rs: seq<Outcome>) {
    |ps| == |rs| + 1 && ps[0] == 0
    && forall i :: 0 <= i < |rs| ==> ReadStep(all, p, ps[i], rs[i], ps[i + 1])
  }

  /** What has been handed out and what remains make up the directory, after any number of calls. */
  lemma {:induction false} NothingLost(all: seq<Record>, p: u32, ps: seq<nat>, rs: seq<Outcome>)
    requires Iteration(all, p, ps, rs)
    ensures Collected(rs) + Remaining(all, p, ps[|rs|]) == Listing(all, p)
    decreases |rs|
  {
    if rs == [] {
      var c := ChildrenOf(all, p);
      assert c[0..] == c;
    } else {
      var n := |rs| - 1;
      NothingLost(all, p, ps[..|rs|], rs[..n]);
      assert ReadStep(all, p, ps[n], rs[n], ps[n + 1]);
      assert ps[..|rs|][n] == ps[n];
    }
  }

  /**
   Iteration is exact: the entries come in key order, each once; the end is
   reported when all have come and not before, and from then on for ever, with the
   position unchanged.
   */
  lemma IterationExact(all: seq<Record>, p: u32, ps: seq<nat>, rs: seq<Outcome>, i: nat)
    requires Iteration(all, p, ps, rs) && i < |rs|
    ensures rs[i].NoMore? ==> Collected(rs[..i]) == Listing(all, p) && ps[i + 1] == ps[i]
    ensures rs[i].Entry? ==>
              |Collected(rs[..i])| < |Listing(all, p)| && rs[i].record == Listing(all, p)[|Collected(rs[..i])|]
    ensures forall j :: 0 <= j < i && rs[j].NoMore? ==> !rs[i].Entry?
  {
    assert Iteration(all, p, ps[..i + 1], rs[..i]);
    NothingLost(all, p, ps[..i + 1], rs[..i]);
    assert ReadStep(all, p, ps[i], rs[i], ps[i + 1]);
    forall j | 0 <= j < i && rs[j].NoMore?
      ensures !rs[i].Entry?
    {
      NothingLost(all, p, ps[..j + 1], rs[..j]);
      assert ReadStep(all, p, ps[j], rs[j], ps[j + 1]);
      CollectedGrows(rs, j, i);
    }
  }

  lemma {:induction false} CollectedGrows(rs: seq<Outcome>, i: nat, j: nat)
    requires i <= j <= |rs|
    ensures |Collected(rs[..i])| <= |Collected(rs[..j])|
    decreases j - i
  {
    if i < j {
      CollectedGrows(rs, i, j - 1);
      assert rs[..j][..j - 1] == rs[..j - 1];
    }
  }

  /**
   The listing holds exactly the records of folders (type 1) and files (type 2) with
   that parent, if the directory has its thread record.
   */
  lemma ListingExact(rs: seq<Record>, p: u32, r: Record)
    ensures r in Listing(rs, p) <==>
            && r in rs && r.key.parentID == p && (r.recordType == 1 || r.recordType == 2)
            && exists x <- rs :: x.key.parentID == p && x.key.name == []
  {
    ChildEntries(rs, p, r);
    ThreadIff(rs, p);
  }

  lemma ChildEntries(rs: seq<Record>, p: u32, r: Record)
    ensures r in Entries(ChildrenOf(rs, p)) <==> r in rs && r.key.parentID == p && IsEntry(r)
  {
    InEntries(ChildrenOf(rs, p), r);
    InChildren(rs, p, r);
  }

  lemma ThreadIff(rs: seq<Record>, p: u32)
    ensures HasThread(rs, p) <==> exists x <- rs :: x.key.parentID == p && x.key.name == []
  {
    forall x | x in rs
      ensures Rank(x.key) == Rank(Key(p, [])) <==> x.key.parentID == p && x.key.name == []
    {
      RankAlike(x.key, Key(p, []));
    }
  }

  lemma {:induction false} InEntries(rs: seq<Record>, r: Record)
    ensures r in Entries(rs) <==> r in rs && IsEntry(r)
  {
    if rs != [] {
      assert rs == [rs[0]] + rs[1..];
      InEntries(rs[1..], r);
    }
  }

  lemma {:induction false} InChildren(rs: seq<Record>, p: u32, r: Record)
    ensures r in ChildrenOf(rs, p) <==> r in rs && r.key.parentID == p
  {
    if rs != [] {
      assert rs == [rs[0]] + rs[1..];
      InChildren(rs[1..], p, r);
    }
  }

  /** Entries come in strictly rising key order, so none comes twice. */
  lemma ListingSorted(rs: seq<Record>, p: u32)
    requires Sorted(rs)
    ensures Sorted(Listing(rs, p))
  {
    EntriesSorted(rs, p);
  }

  lemma {:induction false} EntriesSorted(rs: seq<Record>, p: u32)
    requires Sorted(rs)
    ensures Sorted(Entries(ChildrenOf(rs, p)))
  {
    hide Rank;
    if rs != [] {
      var rest := Entries(ChildrenOf(rs[1..], p));
      EntriesSorted(rs[1..], p);
      forall i | 0 <= i < |rest|
        ensures Rank(rs[0].key) < Rank(rest[i].key)
      {
        ChildEntries(rs[1..], p, rest[i]);
      }
      if rs[0].key.parentID == p {
        assert ChildrenOf(rs, p)[1..] == ChildrenOf(rs[1..], p);
      } else {
        assert ChildrenOf(rs, p) == ChildrenOf(rs[1..], p);
      }
      var whole := Entries(ChildrenOf(rs, p));
      assert whole == rest || whole == [rs[0]] + rest;
    }
  }
}
