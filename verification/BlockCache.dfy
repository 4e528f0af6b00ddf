/**
 The block cache of OpenHfsPlus/fsw_core.c: a growing table of counted buffers, in
 front of a disk whose reads can fail and leave anything in the buffer. Buffers are
 arrays, so that reusing one that is still in use would show.
 */
module BlockCache {
  import opened Words

  const INVALID_BNO: u32 := 0xFFFF_FFFF
  const MAX_CACHE_LEVEL := 5

  datatype Entry = Entry(refcount: nat, level: nat, bno: u32, data: array?<byte>) {
    predicate Free() { bno == INVALID_BNO }
  }

  // ----- The table -----

  /** The first free entry; without one, the first of the lowest level among the unpinned. */
  ghost predicate IsVictim(es: seq<Entry>, i: int) {
    0 <= i < |es| && es[i].refcount == 0
    && if es[i].Free() then forall j :: 0 <= j < i ==> !es[j].Free() else
      (forall j :: 0 <= j < |es| ==> !es[j].Free())
      && (forall j :: 0 <= j < |es| && es[j].refcount == 0 ==> es[i].level <= es[j].level)
      && (forall j :: 0 <= j < i && es[j].refcount == 0 ==> es[i].level < es[j].level)
  }

  ghost predicate AllPinned(es: seq<Entry>) {
    forall j :: 0 <= j < |es| ==> es[j].refcount > 0
  }

  /** An entry without a block is not in use, and no level is above the highest. */
  ghost predicate Levelled(es: seq<Entry>) {
    forall j :: 0 <= j < |es| ==> es[j].level <= MAX_CACHE_LEVEL && (es[j].Free() ==> es[j].refcount == 0)
  }

  /** Entry i is the first with the mark of a free one, in use or not. */
  ghost predicate FirstFree(es: seq<Entry>, i: int) {
    0 <= i < |es| && es[i].Free() && forall j :: 0 <= j < i ==> !es[j].Free()
  }

  /** The search for an entry to use; |es| says that there is none. A marked entry is taken even if it is in use. */
  method FindSlot(es: seq<Entry>) returns (i: nat)
    requires forall j :: 0 <= j < |es| ==> es[j].level <= MAX_CACHE_LEVEL
    ensures i <= |es| && forall j :: FirstFree(es, j) ==> i == j
    ensures Levelled(es) && i < |es| ==> IsVictim(es, i)
    ensures Levelled(es) && i == |es| ==> AllPinned(es)
  {
    i := 0;
    while i < |es| && !es[i].Free()
      invariant i <= |es| && forall j :: 0 <= j < i ==> !es[j].Free()
    {
      i := i + 1;
    }
    if i >= |es| {
      assert forall j :: 0 <= j < |es| ==> !FirstFree(es, j);
      var level := 0;
      while level <= MAX_CACHE_LEVEL
        invariant 0 <= level <= MAX_CACHE_LEVEL + 1 && i == |es|
        invariant forall j :: 0 <= j < |es| && es[j].refcount == 0 ==> es[j].level >= level
      {
        i := 0;
        while i < |es| && !(es[i].refcount == 0 && es[i].level <= level)
          invariant i <= |es|
          invariant forall j :: 0 <= j < i && es[j].refcount == 0 ==> es[j].level > level
        {
          i := i + 1;
        }
        if i < |es| {
          return;
        }
        level := level + 1;
      }
    }
  }

  /** There is only one entry that the search can come up with. */
  lemma VictimUnique(es: seq<Entry>, i: int, j: int)
    requires IsVictim(es, i) && IsVictim(es, j)
    ensures i == j
  {
  }

  const EMPTY := Entry(0, 0, INVALID_BNO, null)

  function NewSize(n: nat): nat {
    if n < 16 then 16 else 2 * n
  }

  /** Whatever is in use stays where it is, for the same block, in the same buffer. */
  ghost predicate KeepsPinned(was: seq<Entry>, es: seq<Entry>) {
    |was| <= |es|
    && forall j :: 0 <= j < |was| && was[j].refcount > 0 ==>
        es[j].refcount >= was[j].refcount && es[j].bno == was[j].bno && es[j].data == was[j].data
  }

  /** Blocks are dropped from the cache only as the search for an entry demands. */
  ghost predicate EvictsVictims(was: seq<Entry>, es: seq<Entry>) {
    |was| <= |es|
    && forall j :: 0 <= j < |was| && !was[j].Free() && es[j].bno != was[j].bno ==> IsVictim(was, j)
  }

  ghost predicate Held(es: seq<Entry>, b: u32, buffer: array<byte>) {
    exists i :: 0 <= i < |es| && es[i].bno == b && es[i].data == buffer && es[i].refcount > 0
  }

  /** What a get may do to the table: it grows only when every entry is in use. */
  ghost predicate Careful(was: seq<Entry>, es: seq<Entry>) {
    KeepsPinned(was, es) && EvictsVictims(was, es)
    && (|es| != |was| ==> AllPinned(was) && |es| == if |was| < 16 then 16 else 2 * |was|)
  }

  /** The most important level there is stands for all above it. */
  function Capped(level: nat): (r: nat)
    ensures r == if level > 5 then 5 else level
  {
    if level > MAX_CACHE_LEVEL then MAX_CACHE_LEVEL else level
  }

  /**
   Entry i holds block b with one more get: at the level asked for, or the one that
   it had if that is higher. Nothing else has changed.
   */
  ghost predicate GotAt(was: seq<Entry>, es: seq<Entry>, b: u32, level: nat, i: nat) {
    && i < |es| && |was| <= |es| && es[i].bno == b
    && (forall j :: 0 <= j < |was| && j != i ==> es[j] == was[j])
    && (forall j :: |was| <= j < |es| && j != i ==> es[j].Free())
    && if i < |was| && was[i].bno == b then
         && es[i].refcount == was[i].refcount + 1 && es[i].data == was[i].data
         && es[i].level == if was[i].level > level then was[i].level else level
       else
         es[i].refcount == 1 && es[i].level == level && !Cached(was, b) && (i < |was| ==> IsVictim(was, i))
  }

  ghost predicate GotBlock(was: seq<Entry>, es: seq<Entry>, b: u32, level: nat) {
    exists i: nat :: GotAt(was, es, b, level, i)
  }

  /** A get that fails may have dropped a block for nothing. */
  ghost predicate GotNothing(was: seq<Entry>, es: seq<Entry>) {
    && |was| <= |es|
    && (forall j :: 0 <= j < |was| ==> es[j] == was[j] || (es[j].Free() && IsVictim(was, j)))
    && (forall j :: |was| <= j < |es| ==> es[j].Free())
  }

  ghost predicate HasLevel(es: seq<Entry>, b: u32, level: nat) {
    exists i :: 0 <= i < |es| && es[i].bno == b && es[i].level == level
  }

  /** The only level that a block has come by since is this one. */
  ghost predicate OnlyLevel(was: seq<Entry>, es: seq<Entry>, level: nat) {
    forall b: u32, l: nat :: b != INVALID_BNO && HasLevel(es, b, l) ==> l == level || HasLevel(was, b, l)
  }

  lemma GotOnly(was: seq<Entry>, es: seq<Entry>, b: u32, level: nat)
    requires GotBlock(was, es, b, level) || GotNothing(was, es)
    ensures OnlyLevel(was, es, level)
  {
    hide IsVictim, Cached;
    if GotBlock(was, es, b, level) {
      var i: nat :| GotAt(was, es, b, level, i);
    }
    forall x: u32, l: nat | x != INVALID_BNO && HasLevel(es, x, l)
      ensures l == level || HasLevel(was, x, l)
    {
      var j :| 0 <= j < |es| && es[j].bno == x && es[j].level == l;
      assert j < |was| && l != level ==> was[j].bno == x && was[j].level == l;
    }
  }

  lemma OnlyAgain(a: seq<Entry>, b: seq<Entry>, c: seq<Entry>, level: nat)
    requires OnlyLevel(a, b, level) && OnlyLevel(b, c, level)
    ensures OnlyLevel(a, c, level)
  {
  }

  ghost predicate Bounded(es: seq<Entry>, blockSize: nat) {
    forall i :: 0 <= i < |es| ==> es[i].data != null ==> es[i].data.Length == blockSize
  }

  /** At most one entry for a block. */
  ghost predicate OnePerBlock(es: seq<Entry>) {
    forall i, j {:trigger es[i].bno, es[j].bno} :: 0 <= i < j < |es| && !es[i].Free() ==> es[i].bno != es[j].bno
  }

  /** No buffer is shared. */
  ghost predicate OwnBuffers(es: seq<Entry>) {
    forall i, j {:trigger es[i].data, es[j].data} ::
      0 <= i < j < |es| && es[i].data != null ==> es[i].data != es[j].data
  }

  /** Counts are the numbers of gets not yet matched by a release. */
  ghost predicate Counted(es: seq<Entry>, pins: multiset<u32>) {
    (forall i :: 0 <= i < |es| && !es[i].Free() ==> es[i].refcount == pins[es[i].bno])
    && (forall b <- pins :: b != INVALID_BNO && Cached(es, b))
  }

  ghost predicate Cached(es: seq<Entry>, b: u32) {
    exists i :: 0 <= i < |es| && es[i].bno == b
  }

  ghost function Arrays(es: seq<Entry>): set<array<byte>> {
    set e | e in es && e.data != null :: e.data
  }

  /** All that holds of the table between calls. */
  ghost predicate TableOk(es: seq<Entry>, pins: multiset<u32>, blockSize: nat) {
    Levelled(es) && Bounded(es, blockSize) && OnePerBlock(es) && OwnBuffers(es) && Counted(es, pins)
  }

  lemma StillCached(es: seq<Entry>, slot: nat, e: Entry, b: u32)
    requires slot < |es| && Cached(es, b) && (es[slot].bno == b ==> e.bno == b)
    ensures Cached(es[slot := e], b)
  {
    var i :| 0 <= i < |es| && es[i].bno == b;
    assert es[slot := e][i].bno == b;
  }

  /** Dropping the block of an unpinned entry. */
  lemma Dropped(es: seq<Entry>, slot: nat, pins: multiset<u32>, blockSize: nat)
    requires TableOk(es, pins, blockSize) && slot < |es| && es[slot].refcount == 0
    ensures TableOk(es[slot := es[slot].(bno := INVALID_BNO)], pins, blockSize)
    ensures Arrays(es[slot := es[slot].(bno := INVALID_BNO)]) == Arrays(es)
  {
    var e := es[slot].(bno := INVALID_BNO);
    forall b <- pins
      ensures Cached(es[slot := e], b)
    {
      StillCached(es, slot, e, b);
    }
    SameArrays(es, slot, e);
  }

  lemma SameArrays(es: seq<Entry>, slot: nat, e: Entry)
    requires slot < |es| && e.data == es[slot].data
    ensures Arrays(es[slot := e]) == Arrays(es)
  {
    var es' := es[slot := e];
    forall a
      ensures a in Arrays(es') <==> a in Arrays(es)
    {
      assert forall i :: 0 <= i < |es| ==> es'[i].data == es[i].data;
      if a in Arrays(es) {
        var i :| 0 <= i < |es| && es[i].data == a;
        assert es'[i] in es';
      }
      if a in Arrays(es') {
        var i :| 0 <= i < |es'| && es'[i].data == a;
        assert es[i] in es;
      }
    }
  }

  /** A new buffer for an entry without one. */
  lemma WithBuffer(es: seq<Entry>, slot: nat, a: array<byte>, pins: multiset<u32>, blockSize: nat)
    requires TableOk(es, pins, blockSize) && slot < |es| && es[slot].data == null
    requires a !in Arrays(es) && a.Length == blockSize
    ensures TableOk(es[slot := es[slot].(data := a)], pins, blockSize)
    ensures Arrays(es[slot := es[slot].(data := a)]) == Arrays(es) + {a}
  {
    var e := es[slot].(data := a);
    var es' := es[slot := e];
    forall b <- pins
      ensures Cached(es', b)
    {
      StillCached(es, slot, e, b);
    }
    assert forall i :: 0 <= i < |es| && es[i].data != null ==> es[i].data in Arrays(es);
    forall x
      ensures x in Arrays(es') <==> x in Arrays(es) + {a}
    {
      if x in Arrays(es) {
        var i :| 0 <= i < |es| && es[i].data == x;
        assert es'[i] in es';
      }
      if x == a {
        assert es'[slot] in es';
      }
      if x in Arrays(es') {
        var i :| 0 <= i < |es'| && es'[i].data == x;
        assert i == slot || es[i] in es;
      }
    }
  }

  /** A block put into a free entry, or found in its entry, with one more get. */
  lemma Pinned(es: seq<Entry>, slot: nat, e: Entry, pins: multiset<u32>, blockSize: nat)
    requires TableOk(es, pins, blockSize) && slot < |es| && (es[slot].Free() || es[slot].bno == e.bno)
    requires e.refcount == es[slot].refcount + 1 && e.data == es[slot].data && !e.Free() && e.level <= MAX_CACHE_LEVEL
    requires forall j :: 0 <= j < |es| && j != slot ==> es[j].bno != e.bno
    ensures TableOk(es[slot := e], pins + multiset{e.bno}, blockSize)
    ensures Arrays(es[slot := e]) == Arrays(es)
  {
    var es' := es[slot := e];
    SameArrays(es, slot, e);
    assert es'[slot].bno == e.bno;
    forall b <- pins
      ensures Cached(es', b)
    {
      StillCached(es, slot, e, b);
    }
    assert es[slot].Free() ==> !Cached(es, e.bno);
  }

  /** One get fewer. */
  lemma Unpinned(es: seq<Entry>, slot: nat, e: Entry, pins: multiset<u32>, blockSize: nat)
    requires TableOk(es, pins, blockSize) && slot < |es| && es[slot].refcount > 0
    requires e == es[slot].(refcount := es[slot].refcount - 1)
    ensures TableOk(es[slot := e], pins - multiset{e.bno}, blockSize)
    ensures Arrays(es[slot := e]) == Arrays(es)
  {
    SameArrays(es, slot, e);
    forall b <- pins
      ensures Cached(es[slot := e], b)
    {
      StillCached(es, slot, e, b);
    }
  }

  function Grown(es: seq<Entry>): (r: seq<Entry>)
    ensures |r| == NewSize(|es|) && es <= r
    ensures forall i :: |es| <= i < |r| ==> r[i] == EMPTY
  {
    es + seq(NewSize(|es|) - |es|, _ => EMPTY)
  }

  lemma GrownOk(es: seq<Entry>, pins: multiset<u32>, blockSize: nat)
    requires TableOk(es, pins, blockSize)
    ensures TableOk(Grown(es), pins, blockSize) && Arrays(Grown(es)) == Arrays(es)
  {
    forall b <- pins
      ensures Cached(Grown(es), b)
    {
      var i :| 0 <= i < |es| && es[i].bno == b;
      assert Grown(es)[i].bno == b;
    }
    assert forall i :: 0 <= i < |es| ==> Grown(es)[i] == es[i];
    forall x
      ensures x in Arrays(Grown(es)) <==> x in Arrays(es)
    {
      if x in Arrays(es) {
        var i :| 0 <= i < |es| && es[i].data == x;
        assert Grown(es)[i] in Grown(es);
      }
    }
  }

  // ----- The cache of a volume -----

  class Cache {
    const blockSize: nat
    const disk: map<u32, seq<byte>>
    /** No read of an existing block and no allocation fails. */
    const reliable: bool
    var entries: seq<Entry>
    /** The buffers that are allocated. */
    ghost var heap: set<array<byte>>
    /** The gets that have not been matched by a release. */
    ghost var pins: multiset<u32>

    constructor (blockSize: nat, disk: map<u32, seq<byte>>, reliable: bool)
      requires forall b <- disk :: |disk[b]| == blockSize
      ensures this.blockSize == blockSize && this.disk == disk && this.reliable == reliable
      ensures Valid() && entries == [] && pins == multiset{}
    {
      this.blockSize, this.disk, this.reliable := blockSize, disk, reliable;
      entries, heap, pins := [], {}, multiset{};
    }

    /** A cached block's buffer holds the block. */
    ghost predicate Loaded()
      reads this, Arrays(entries)
    {
      forall i :: 0 <= i < |entries| && !entries[i].Free() ==>
        var e := entries[i];
        e.data != null && e.bno in disk && e.data[..] == disk[e.bno]
    }

    ghost predicate Valid()
      reads this, Arrays(entries)
    {
      TableOk(entries, pins, blockSize) && heap == Arrays(entries) && Loaded()
      && forall b <- disk :: |disk[b]| == blockSize
    }

    /** A caller got this buffer for block b and has not released it. */
    ghost predicate Holds(b: u32, buffer: array<byte>)
      reads this
    {
      Held(entries, b, buffer)
    }

    /** The promise of the cache: a buffer in use holds its disk block. */
    lemma PinnedIsDisk(b: u32, buffer: array<byte>)
      requires Valid() && Holds(b, buffer)
      ensures b in disk && buffer[..] == disk[b]
    {
    }

    /** The host driver's read: on failure the buffer holds anything. */
    method ReadBlock(bno: u32, buffer: array<byte>) returns (ok: bool)
      requires buffer.Length == blockSize && forall b <- disk :: |disk[b]| == blockSize
      modifies buffer
      ensures ok ==> bno in disk && buffer[..] == disk[bno]
      ensures reliable && bno in disk ==> ok
    {
      ok := *;
      ok := bno in disk && (reliable || ok);
      var junk: seq<byte> := *;
      var content := if ok then disk[bno] else junk;
      forall i | 0 <= i < buffer.Length && i < |content| {
        buffer[i] := content[i];
      }
    }

    /** A buffer for an entry that has none. */
    method Allocate(slot: nat) returns (ok: bool)
      requires Valid() && slot < |entries|
      modifies this
      ensures Valid() && fresh(heap - old(heap)) && pins == old(pins)
      ensures |entries| == |old(entries)|
      ensures if ok then entries[slot].data != null else entries == old(entries) && !reliable
      ensures entries == old(entries)[slot := old(entries)[slot].(data := entries[slot].data)]
    {
      if entries[slot].data == null {
        var exhausted: bool := *;
        if !reliable && exhausted {
          return false;
        }
        var b := new byte[blockSize];
        WithBuffer(entries, slot, b, pins, blockSize);
        entries := entries[slot := entries[slot].(data := b)];
        heap := heap + {b};
      }
      return true;
    }

    /** A block is read into the buffer of a free entry, which gets one if it has none. */
    method Load(slot: nat, bno: u32) returns (ok: bool, buffer: array?<byte>)
      requires Valid() && slot < |entries| && entries[slot].Free()
      modifies this, Arrays(entries)
      ensures Valid() && fresh(heap - old(heap)) && pins == old(pins) && |entries| == |old(entries)|
      ensures entries == old(entries)[slot := old(entries)[slot].(data := entries[slot].data)]
      ensures reliable && bno in disk ==> ok
      ensures ok ==> buffer != null && entries[slot].data == buffer && bno in disk && buffer[..] == disk[bno]
    {
      ok := Allocate(slot);
      if !ok {
        return false, null;
      }
      buffer := entries[slot].data;
      ok := ReadBlock(bno, buffer);
    }

    /** Until the block has been read, the entry stays free. */
    method Fill(slot: nat, bno: u32, level: nat) returns (ok: bool, buffer: array?<byte>)
      requires Valid() && slot < |entries| && entries[slot].refcount == 0 && entries[slot].Free()
      requires bno != INVALID_BNO && level <= MAX_CACHE_LEVEL && !Cached(entries, bno)
      modifies this, Arrays(entries)
      ensures Valid() && fresh(heap - old(heap))
      ensures |entries| == |old(entries)|
      ensures forall j :: 0 <= j < |entries| && j != slot ==> entries[j] == old(entries)[j]
      ensures reliable && bno in disk ==> ok
      ensures !ok ==> pins == old(pins) && entries[slot].Free()
      ensures ok ==>
                buffer != null && entries[slot] == Entry(1, level, bno, buffer) && pins == old(pins) + multiset{bno}
    {
      ok, buffer := Load(slot, bno);
      if ok {
        Pinned(entries, slot, Entry(1, level, bno, buffer), pins, blockSize);
        entries := entries[slot := Entry(1, level, bno, buffer)];
        pins := pins + multiset{bno};
      }
    }

    /** Where a block is cached; |entries| if it is not. */
    method Find(bno: u32) returns (i: nat)
      ensures i < |entries| ==> entries[i].bno == bno && forall j :: 0 <= j < i ==> entries[j].bno != bno
      ensures i >= |entries| ==> i == |entries| && !Cached(entries, bno)
    {
      i := 0;
      while i < |entries| && entries[i].bno != bno
        invariant i <= |entries| && forall j :: 0 <= j < i ==> entries[j].bno != bno
      {
        i := i + 1;
      }
    }

    /** A cached block is used once more, and may rise in level. */
    method Hit(i: nat, level: nat) returns (buffer: array<byte>)
      requires Valid() && i < |entries| && !entries[i].Free() && level <= MAX_CACHE_LEVEL
      modifies this
      ensures Valid() && heap == old(heap)
      ensures pins == old(pins) + multiset{old(entries)[i].bno} && Holds(old(entries)[i].bno, buffer)
      ensures var e := old(entries)[i];
        entries == old(entries)[i := Entry(e.refcount + 1, if e.level < level then level else e.level, e.bno, e.data)]
      ensures Careful(old(entries), entries) && GotAt(old(entries), entries, old(entries)[i].bno, level, i)
    {
      var e := entries[i];
      var lift := if e.level < level then level else e.level;
      ghost var was := entries;
      Count(i, lift);
      Reused(was, i, entries[i]);
      buffer := entries[i].data;
    }

    method Count(i: nat, level: nat)
      requires Valid() && i < |entries| && !entries[i].Free() && level <= MAX_CACHE_LEVEL
      modifies this
      ensures Valid() && heap == old(heap)
      ensures var e := old(entries)[i];
        entries == old(entries)[i := e.(refcount := e.refcount + 1, level := level)]
          && pins == old(pins) + multiset{e.bno}
    {
      var e := entries[i].(refcount := entries[i].refcount + 1, level := level);
      Pinned(entries, i, e, pins, blockSize);
      entries := entries[i := e];
      pins := pins + multiset{e.bno};
    }

    /** An entry for a new block: the victim of the search, or the first of the entries that enlarge the table. */
    method Reserve() returns (ok: bool, slot: nat)
      requires Valid()
      modifies this
      ensures Valid() && heap == old(heap) && pins == old(pins)
      ensures !ok ==> entries == old(entries) && !reliable
      ensures ok ==> slot < |entries| && entries[slot].Free()
      ensures ok ==> IsReplacement(old(entries), entries, slot)
    {
      hide Bounded, OnePerBlock, OwnBuffers, Counted;
      slot := FindSlot(entries);
      if slot >= |entries| {
        var exhausted: bool := *;
        if !reliable && exhausted {
          return false, slot;
        }
        GrownOk(entries, pins, blockSize);
        entries := Grown(entries);
      }
      Dropped(entries, slot, pins, blockSize);
      entries := entries[slot := entries[slot].(bno := INVALID_BNO)];
      ok := true;
    }

    /** A block that is not cached takes the place of another, or a new one. */
    method Miss(bno: u32, level: nat) returns (ok: bool, buffer: array?<byte>)
      requires Valid() && bno != INVALID_BNO && !Cached(entries, bno) && level <= MAX_CACHE_LEVEL
      modifies this, Arrays(entries)
      ensures Valid() && fresh(heap - old(heap))
      ensures ok ==> buffer != null && Holds(bno, buffer)
      ensures pins == if ok then old(pins) + multiset{bno} else old(pins)
      ensures reliable && bno in disk ==> ok
      ensures Careful(old(entries), entries)
      ensures if ok then GotBlock(old(entries), entries, bno, level) else GotNothing(old(entries), entries)
    {
      hide IsVictim, IsReplacement, Bounded, OwnBuffers, Counted, OnePerBlock;
      ghost var was := entries;
      var slot;
      ok, slot := Reserve();
      if !ok {
        return false, null;
      }
      StillMissing(was, entries, slot, bno);
      ghost var reserved := entries;
      ok, buffer := Fill(slot, bno, level);
      ReplacedAt(was, reserved, entries, slot);
      Replaced(was, entries, slot);
      GotInPlace(was, entries, slot, bno, level);
    }

    /**
     fsw_block_get. The number that marks free entries is a number like any other to
     the source: asked for, it is found in the first free entry, whose buffer may hold
     anything or be missing, or it is read into an entry that then counts as free.
     */
    method Get(bno: u32, cacheLevel: nat) returns (ok: bool, buffer: array?<byte>)
      requires Valid()
      modifies this, Arrays(entries)
      ensures fresh(heap - old(heap)) && (bno != INVALID_BNO || !ok ==> Valid())
      ensures bno != INVALID_BNO && ok ==>
                buffer != null && bno in disk && buffer[..] == disk[bno] && Holds(bno, buffer)
      ensures pins == if bno != INVALID_BNO && ok then old(pins) + multiset{bno} else old(pins)
      ensures bno != INVALID_BNO && reliable && bno in disk ==> ok
      ensures bno != INVALID_BNO || !ok ==> Careful(old(entries), entries)
      ensures bno != INVALID_BNO && ok ==>
                GotBlock(old(entries), entries, bno, if cacheLevel > 5 then 5 else cacheLevel)
      ensures !ok ==> GotNothing(old(entries), entries)
      ensures bno == INVALID_BNO && ok ==>
                Mistaken(old(entries), entries, if cacheLevel > 5 then 5 else cacheLevel, buffer)
      ensures bno == INVALID_BNO && (exists j :: FirstFree(old(entries), j)) ==> ok
    {
      var level := Capped(cacheLevel);
      var i := Find(bno);
      if bno == INVALID_BNO {
        ok, buffer := GetMarked(i, level);
      } else if i < |entries| {
        buffer := Hit(i, level);
        ok := true;
      } else {
        ok, buffer := Miss(bno, level);
      }
    }

    /** The number that marks free entries, found in entry i or in none. */
    method GetMarked(i: nat, level: nat) returns (ok: bool, buffer: array?<byte>)
      requires Valid()
      requires if i < |entries| then FirstFree(entries, i) else forall j :: !FirstFree(entries, j)
      modifies this, Arrays(entries)
      ensures fresh(heap - old(heap)) && pins == old(pins) && (ok || Valid())
      ensures i < |old(entries)| ==> ok
      ensures if ok then Mistaken(old(entries), entries, level, buffer)
              else Careful(old(entries), entries) && GotNothing(old(entries), entries)
    {
      hide TableOk;
      if i < |entries| {
        var e := entries[i].(refcount := entries[i].refcount + 1,
                             level := if entries[i].level < level then level else entries[i].level);
        MistakenHit(entries, i, level, e);
        ok, buffer, entries := true, entries[i].data, entries[i := e];
        return;
      }
      ghost var was := entries;
      var slot;
      ok, slot := Reserve();
      if !ok {
        return false, null;
      }
      ok, buffer := Load(slot, INVALID_BNO);
      Replaced(was, entries, slot);
      if ok {
        MistakenRead(was, entries, slot, level, Entry(1, level, INVALID_BNO, buffer));
        entries := entries[slot := Entry(1, level, INVALID_BNO, buffer)];
      }
    }

    /** fsw_block_release: no effect on a block that is not in use. */
    method Release(bno: u32)
      requires Valid()
      modifies this
      ensures Valid() && heap == old(heap)
      ensures pins == old(pins) - multiset{bno}
      ensures ReleasedTo(old(entries), entries, |old(entries)|, bno)
    {
      hide Releasing, ReleasedTo, TableOk, Loaded;
      StartRelease(entries, pins, blockSize, bno);
      ghost var was, pinned, hit: nat := entries, pins, |entries|;
      for i := 0 to |entries|
        invariant Valid() && heap == old(heap) && |entries| == |was|
        invariant Releasing(was, pinned, entries, pins, i, hit, bno)
      {
        hit := ReleaseNext(i, bno, was, pinned, hit);
      }
      NoneLeft(was, pinned, entries, pins, hit, bno);
    }

    method ReleaseNext(i: nat, bno: u32, ghost was: seq<Entry>, ghost pinned: multiset<u32>, ghost hit: nat)
      returns (ghost next: nat)
      requires Valid() && i < |entries| && Releasing(was, pinned, entries, pins, i, hit, bno)
      modifies this
      ensures Valid() && heap == old(heap) && |entries| == |old(entries)|
      ensures Releasing(was, pinned, entries, pins, i + 1, next, bno)
    {
      hide Releasing, TableOk, Loaded;
      next := ReleaseStep(was, pinned, entries, pins, i, hit, bno);
      ReleaseAt(i, bno);
    }

    method ReleaseAt(i: nat, bno: u32)
      requires Valid() && i < |entries|
      modifies this
      ensures Valid() && heap == old(heap)
      ensures entries == old(entries)[i := Released(old(entries)[i], bno)]
      ensures pins == PinsAfter(old(pins), old(entries)[i], bno)
    {
      if entries[i].bno == bno && entries[i].refcount > 0 {
        Unpin(i);
      }
    }

    method Unpin(i: nat)
      requires Valid() && i < |entries| && entries[i].refcount > 0
      modifies this
      ensures Valid() && heap == old(heap)
      ensures var e := old(entries)[i];
        entries == old(entries)[i := e.(refcount := e.refcount - 1)] && pins == old(pins) - multiset{e.bno}
    {
      var e := entries[i].(refcount := entries[i].refcount - 1);
      Unpinned(entries, i, e, pins, blockSize);
      entries := entries[i := e];
      pins := pins - multiset{e.bno};
    }

    method FreeBuffer(a: array<byte>)
      requires a in heap
      modifies this`heap
      ensures heap == old(heap) - {a}
    {
      heap := heap - {a};
    }

    /** fsw_blockcache_free: every buffer goes back once, in use or not. */
    method Free()
      requires Valid()
      modifies this
      ensures Valid() && entries == [] && heap == {} && pins == multiset{}
    {
      for i := 0 to |entries|
        invariant entries == old(entries) && heap == Arrays(entries[i..])
      {
        ArraysTail(entries, i);
        if entries[i].data != null {
          FreeBuffer(entries[i].data);
        }
      }
      entries, pins := [], multiset{};
    }
  }

  /** Only the entry found is new, or all the entries added to a full table. */
  ghost predicate IsReplacement(was: seq<Entry>, es: seq<Entry>, slot: nat) {
    |was| <= |es| && slot <= |was|
    && (forall j :: 0 <= j < |was| && j != slot ==> es[j] == was[j])
    && (forall j :: |was| <= j < |es| && j != slot ==> es[j].Free())
    && if slot < |was| then |es| == |was| && IsVictim(was, slot)
       else AllPinned(was) && |es| == NewSize(|was|)
  }

  /**
   What comes of asking for the number that marks free entries: an entry that is in
   use and counts as free, so that the next search takes it again; other entries in
   use stay. If there was a free entry, the buffer is the one that it had.
   */
  ghost predicate Mistaken(was: seq<Entry>, es: seq<Entry>, level: nat, buffer: array?<byte>) {
    exists i :: 0 <= i < |es| && MistakenAt(was, es, level, buffer, i)
  }

  ghost predicate MistakenAt(was: seq<Entry>, es: seq<Entry>, level: nat, buffer: array?<byte>, i: int)
    requires 0 <= i < |es|
  {
    && FirstFree(es, i) && es[i].data == buffer
    && es[i].refcount == (if FirstFree(was, i) then was[i].refcount + 1 else 1)
    && es[i].level == (if FirstFree(was, i) && was[i].level > level then was[i].level else level)
    && KeepsPinned(was, es)
    && (forall j :: FirstFree(was, j) ==> j == i && buffer == was[i].data && |es| == |was|)
  }

  lemma MistakenHit(es: seq<Entry>, i: nat, level: nat, e: Entry)
    requires FirstFree(es, i) && e.Free() && e.refcount == es[i].refcount + 1 && e.data == es[i].data
    requires e.level == if es[i].level > level then es[i].level else level
    ensures Mistaken(es, es[i := e], level, e.data)
  {
    var es' := es[i := e];
    assert FirstFree(es', i);
    forall j | FirstFree(es, j)
      ensures j == i
    {
    }
    assert MistakenAt(es, es', level, e.data, i);
  }

  lemma MistakenRead(was: seq<Entry>, es: seq<Entry>, slot: nat, level: nat, e: Entry)
    requires IsReplacement(was, es, slot) && slot < |es| && forall j :: !FirstFree(was, j)
    requires e.Free() && e.refcount == 1 && e.level == level
    ensures Mistaken(was, es[slot := e], level, e.data)
  {
    forall j | 0 <= j < |was|
      ensures !was[j].Free()
    {
      NoFirstFree(was, j);
    }
    assert MistakenAt(was, es[slot := e], level, e.data, slot);
  }

  lemma {:induction false} NoFirstFree(es: seq<Entry>, j: nat)
    requires j < |es| && forall i :: !FirstFree(es, i)
    ensures !es[j].Free()
  {
    forall i | 0 <= i < j
      ensures !es[i].Free()
    {
      NoFirstFree(es, i);
    }
    assert !FirstFree(es, j);
  }

  /** Whoever looks for an entry next gets the one that is in use already. */
  lemma MistakenIsNext(was: seq<Entry>, es: seq<Entry>, level: nat, buffer: array?<byte>)
    requires Mistaken(was, es, level, buffer)
    ensures exists i :: FirstFree(es, i) && es[i].refcount > 0 && es[i].data == buffer
  {
    var i :| 0 <= i < |es| && MistakenAt(was, es, level, buffer, i);
    assert FirstFree(es, i);
  }

  /** What is put into the entry makes no difference. */
  lemma ReplacedAt(was: seq<Entry>, reserved: seq<Entry>, es: seq<Entry>, slot: nat)
    requires IsReplacement(was, reserved, slot) && |es| == |reserved|
    requires forall j :: 0 <= j < |es| && j != slot ==> es[j] == reserved[j]
    ensures IsReplacement(was, es, slot)
  {
  }

  lemma GotInPlace(was: seq<Entry>, es: seq<Entry>, slot: nat, bno: u32, level: nat)
    requires IsReplacement(was, es, slot) && slot < |es| && !Cached(was, bno)
    ensures es[slot].Free() ==> GotNothing(was, es)
    ensures es[slot].bno == bno && es[slot].refcount == 1 && es[slot].level == level ==> GotBlock(was, es, bno, level)
  {
    if es[slot].bno == bno && es[slot].refcount == 1 && es[slot].level == level {
      assert slot < |was| ==> was[slot].bno != bno;
      assert GotAt(was, es, bno, level, slot);
    }
  }

  lemma Replaced(was: seq<Entry>, es: seq<Entry>, slot: nat)
    requires IsReplacement(was, es, slot)
    ensures Careful(was, es)
  {
  }

  lemma Reused(es: seq<Entry>, i: nat, e: Entry)
    requires i < |es| && e.bno == es[i].bno && e.data == es[i].data && e.refcount >= es[i].refcount
    ensures Careful(es, es[i := e])
  {
  }

  lemma StillMissing(was: seq<Entry>, es: seq<Entry>, slot: nat, bno: u32)
    requires IsReplacement(was, es, slot) && slot < |es| && es[slot].Free() && !Cached(was, bno) && bno != INVALID_BNO
    ensures !Cached(es, bno)
  {
  }

  function Released(e: Entry, bno: u32): Entry {
    if e.bno == bno && e.refcount > 0 then e.(refcount := e.refcount - 1) else e
  }

  ghost predicate ReleasedTo(was: seq<Entry>, es: seq<Entry>, i: nat, bno: u32) {
    |es| == |was|
    && (forall j :: 0 <= j < i && j < |es| ==> es[j] == Released(was[j], bno))
    && (forall j :: i <= j < |es| ==> es[j] == was[j])
  }

  ghost function PinsAfter(pins: multiset<u32>, e: Entry, bno: u32): multiset<u32> {
    if e.bno == bno && e.refcount > 0 then pins - multiset{bno} else pins
  }

  /** The release has been counted when the block's entry, hit, has been passed. */
  ghost predicate Releasing(was: seq<Entry>, pinned: multiset<u32>, es: seq<Entry>, pins: multiset<u32>,
                            i: nat, hit: nat, bno: u32)
  {
    i <= |was| && ReleasedTo(was, es, i, bno) && OnePerBlock(was) && Counted(was, pinned) && Levelled(was)
    && pins == (if hit < i then pinned - multiset{bno} else pinned)
    && (hit < i ==> was[hit].bno == bno)
    && (hit >= i ==> hit == |was| && forall j :: 0 <= j < i && was[j].bno == bno ==> was[j].refcount == 0)
  }

  lemma ReleasedOnly(was: seq<Entry>, es: seq<Entry>, bno: u32, level: nat)
    requires ReleasedTo(was, es, |was|, bno)
    ensures OnlyLevel(was, es, level)
  {
    forall x: u32, l: nat | HasLevel(es, x, l)
      ensures HasLevel(was, x, l)
    {
      var j :| 0 <= j < |es| && es[j].bno == x && es[j].level == l;
      assert es[j] == Released(was[j], bno);
    }
  }

  lemma StartRelease(es: seq<Entry>, pins: multiset<u32>, blockSize: nat, bno: u32)
    requires TableOk(es, pins, blockSize)
    ensures Releasing(es, pins, es, pins, 0, |es|, bno)
  {
  }

  lemma ReleaseStep(was: seq<Entry>, pinned: multiset<u32>, es: seq<Entry>, pins: multiset<u32>,
                    i: nat, hit: nat, bno: u32) returns (next: nat)
    requires Releasing(was, pinned, es, pins, i, hit, bno) && i < |es|
    ensures Releasing(was, pinned, es[i := Released(es[i], bno)], PinsAfter(pins, es[i], bno), i + 1, next, bno)
  {
    hide Counted, Levelled, OnePerBlock, ReleasedTo;
    ReleasedOneMore(was, es, i, bno);
    if es[i].bno == bno && es[i].refcount > 0 {
      next := i;
      OneHit(was, hit, i);
    } else {
      next := hit;
    }
  }

  lemma ReleasedOneMore(was: seq<Entry>, es: seq<Entry>, i: nat, bno: u32)
    requires ReleasedTo(was, es, i, bno) && i < |es|
    ensures es[i] == was[i] && |es| == |was| && ReleasedTo(was, es[i := Released(es[i], bno)], i + 1, bno)
  {
  }

  lemma OneHit(es: seq<Entry>, hit: nat, i: nat)
    requires OnePerBlock(es) && Levelled(es) && i < |es| && es[i].refcount > 0
    ensures hit < i ==> es[hit].bno != es[i].bno
  {
  }

  lemma NoneLeft(was: seq<Entry>, pinned: multiset<u32>, es: seq<Entry>, pins: multiset<u32>, hit: nat, bno: u32)
    requires Releasing(was, pinned, es, pins, |was|, hit, bno)
    ensures pins == pinned - multiset{bno} && ReleasedTo(was, es, |was|, bno)
  {
    if bno in pinned {
      assert Cached(was, bno);
    }
  }

  lemma ArraysTail(es: seq<Entry>, i: nat)
    requires OwnBuffers(es) && i < |es|
    ensures Arrays(es[i..]) == Arrays(es[i + 1..]) + if es[i].data == null then {} else {es[i].data}
    ensures es[i].data != null ==> es[i].data !in Arrays(es[i + 1..])
  {
    assert es[i..] == [es[i]] + es[i + 1..];
  }

  // ----- Runs -----

  datatype Call = Got(bno: u32, level: nat) | Failed | Returned(bno: u32)

  /** What one call does to the table and to the unmatched gets, as Get and Release promise it. */
  ghost predicate Called(c: Call, was: seq<Entry>, pinned: multiset<u32>, es: seq<Entry>, pins: multiset<u32>) {
    Counted(was, pinned) && Counted(es, pins) && OnePerBlock(es)
    && match c
       case Got(b, level) =>
         && Careful(was, es) && pins == pinned + multiset{b} && b != INVALID_BNO
         && GotBlock(was, es, b, if level > 5 then 5 else level)
       case Failed => Careful(was, es) && pins == pinned && GotNothing(was, es)
       case Returned(b) => ReleasedTo(was, es, |was|, b) && pins == pinned - multiset{b}
  }

  ghost predicate IsRun(cs: seq<Call>, tables: seq<seq<Entry>>, pins: seq<multiset<u32>>) {
    |tables| == |pins| == |cs| + 1
    && forall i :: 0 <= i < |cs| ==> Called(cs[i], tables[i], pins[i], tables[i + 1], pins[i + 1])
  }

  /** One of the first n calls asked for b at this level, and b has been in the table from then on. */
  ghost predicate Asked(cs: seq<Call>, tables: seq<seq<Entry>>, n: nat, b: u32, level: nat)
    requires n <= |cs| < |tables|
  {
    exists i: nat :: i < n && AskedIn(cs[i], b, level) && StaysCached(tables, i + 1, n, b)
  }

  /** Five is the highest level there is. */
  ghost predicate AskedIn(c: Call, b: u32, level: nat) {
    c.Got? && c.bno == b && level == if c.level > 5 then 5 else c.level
  }

  ghost predicate StaysCached(tables: seq<seq<Entry>>, from: nat, to: nat, b: u32)
    requires to < |tables|
  {
    forall k :: from <= k <= to ==> Cached(tables[k], b)
  }

  /** The highest level asked for since b was loaded. */
  ghost predicate Highest(cs: seq<Call>, tables: seq<seq<Entry>>, n: nat, b: u32, level: nat)
    requires n <= |cs| < |tables|
  {
    Asked(cs, tables, n, b, level) && forall l: nat :: Asked(cs, tables, n, b, l) ==> l <= level
  }

  lemma AskedNext(cs: seq<Call>, tables: seq<seq<Entry>>, n: nat, b: u32, level: nat)
    requires n < |cs| < |tables|
    ensures Asked(cs, tables, n + 1, b, level) <==>
            Cached(tables[n + 1], b) && (Asked(cs, tables, n, b, level) || AskedIn(cs[n], b, level))
    ensures Asked(cs, tables, n, b, level) ==> Cached(tables[n], b)
  {
    if i: nat :| i < n && AskedIn(cs[i], b, level) && StaysCached(tables, i + 1, n, b) {
      assert Cached(tables[n], b);
      if Cached(tables[n + 1], b) {
        assert StaysCached(tables, i + 1, n + 1, b);
      }
    }
    if Cached(tables[n + 1], b) && AskedIn(cs[n], b, level) {
      assert StaysCached(tables, n + 1, n + 1, b);
    }
    if i: nat :| i < n + 1 && AskedIn(cs[i], b, level) && StaysCached(tables, i + 1, n + 1, b) {
      assert Cached(tables[n + 1], b);
      assert i < n ==> StaysCached(tables, i + 1, n, b);
    }
  }

  /** A step that does not ask for b leaves its highest level. */
  lemma HighestStays(cs: seq<Call>, tables: seq<seq<Entry>>, n: nat, b: u32, level: nat)
    requires n < |cs| < |tables| && Highest(cs, tables, n, b, level) && Cached(tables[n + 1], b)
    requires cs[n].Got? ==> cs[n].bno != b
    ensures Highest(cs, tables, n + 1, b, level)
  {
    var m := n + 1;
    AskedNext(cs, tables, n, b, level);
    forall l: nat | Asked(cs, tables, m, b, l)
      ensures l <= level
    {
      AskedNext(cs, tables, n, b, l);
    }
  }

  lemma HighestRises(cs: seq<Call>, tables: seq<seq<Entry>>, n: nat, b: u32, before: nat, level: nat)
    requires n < |cs| < |tables| && Cached(tables[n + 1], b) && AskedIn(cs[n], b, level)
    requires Cached(tables[n], b) ==> Highest(cs, tables, n, b, before)
    ensures Highest(cs, tables, n + 1, b, if Cached(tables[n], b) && before > level then before else level)
  {
    var m := n + 1;
    AskedNext(cs, tables, n, b, level);
    AskedNext(cs, tables, n, b, before);
    forall l: nat | Asked(cs, tables, m, b, l)
      ensures l <= level || (Cached(tables[n], b) && l <= before)
    {
      AskedNext(cs, tables, n, b, l);
    }
  }

  /** What a call means for the level of entry j: it stays, or the call asked for the block. */
  ghost predicate LevelStep(c: Call, was: seq<Entry>, es: seq<Entry>, j: nat)
    requires j < |es|
  {
    if c.Got? && c.bno == es[j].bno then
      var level := if c.level > 5 then 5 else c.level;
      if j < |was| && was[j].bno == c.bno then es[j].level == if was[j].level > level then was[j].level else level
      else es[j].level == level && !Cached(was, c.bno)
    else
      j < |was| && was[j].bno == es[j].bno && was[j].level == es[j].level
  }

  lemma LevelSteps(c: Call, was: seq<Entry>, pinned: multiset<u32>, es: seq<Entry>, pins: multiset<u32>, j: nat)
    requires Called(c, was, pinned, es, pins) && j < |es| && !es[j].Free()
    ensures LevelStep(c, was, es, j)
  {
    hide Counted, Careful, Cached, IsVictim;
    if c.Got? {
      var i: nat :| GotAt(was, es, c.bno, if c.level > 5 then 5 else c.level, i);
      assert es[i].bno == c.bno;
    }
  }

  /** The level in the table is what the callers asked for, at any time of a run that starts with an empty table. */
  lemma {:induction false} LevelIsHighest(cs: seq<Call>, tables: seq<seq<Entry>>, pins: seq<multiset<u32>>, n: nat,
                                          j: nat)
    requires IsRun(cs, tables, pins) && tables[0] == [] && n <= |cs|
    requires j < |tables[n]| && !tables[n][j].Free()
    ensures Highest(cs, tables, n, tables[n][j].bno, tables[n][j].level)
  {
    hide Called, Highest;
    if n > 0 {
      var was, es, c := tables[n - 1], tables[n], cs[n - 1];
      var b := es[j].bno;
      LevelSteps(c, was, pins[n - 1], es, pins[n], j);
      assert Cached(es, b);
      if j < |was| && was[j].bno == b {
        LevelIsHighest(cs, tables, pins, n - 1, j);
        assert Cached(was, b);
      }
      if c.Got? && c.bno == b {
        HighestRises(cs, tables, n - 1, b, if j < |was| then was[j].level else 0,
                     if c.level > 5 then 5 else c.level);
      } else {
        HighestStays(cs, tables, n - 1, b, es[j].level);
      }
    }
  }

  /**
   The least important block goes first, over any run of calls: when a call drops
   block b from the table, none of its gets is unmatched, and no block without
   unmatched gets was asked for at lower levels only.
   */
  lemma DropsLeastAsked(cs: seq<Call>, tables: seq<seq<Entry>>, pins: seq<multiset<u32>>, n: nat,
                        b: u32, x: u32, level: nat, other: nat)
    requires IsRun(cs, tables, pins) && tables[0] == [] && n < |cs|
    requires b != INVALID_BNO && Cached(tables[n], b) && !Cached(tables[n + 1], b)
    requires x != INVALID_BNO && Cached(tables[n], x) && pins[n][x] == 0
    requires Highest(cs, tables, n, b, level) && Highest(cs, tables, n, x, other)
    ensures pins[n][b] == 0 && level <= other
  {
    var was, es := tables[n], tables[n + 1];
    assert Called(cs[n], was, pins[n], es, pins[n + 1]);
    var i :| 0 <= i < |was| && was[i].bno == b;
    var j :| 0 <= j < |was| && was[j].bno == x;
    assert i < |es| && es[i].bno != b;
    assert IsVictim(was, i);
    LevelIsHighest(cs, tables, pins, n, i);
    LevelIsHighest(cs, tables, pins, n, j);
  }

  /** Over any run of calls a buffer stays the buffer of its block as long as a get of the block is unmatched. */
  lemma {:induction false} HeldThroughout(cs: seq<Call>, tables: seq<seq<Entry>>, pins: seq<multiset<u32>>, n: nat,
                                          b: u32, buffer: array<byte>)
    requires IsRun(cs, tables, pins) && n <= |cs| && Held(tables[0], b, buffer) && b != INVALID_BNO
    requires forall i :: 0 <= i <= n ==> pins[i][b] > 0
    ensures Held(tables[n], b, buffer)
  {
    if n > 0 {
      HeldThroughout(cs, tables, pins, n - 1, b, buffer);
      HeldStep(cs[n - 1], tables[n - 1], pins[n - 1], tables[n], pins[n], b, buffer);
    }
  }

  lemma HeldStep(c: Call, was: seq<Entry>, pinned: multiset<u32>, es: seq<Entry>, pins: multiset<u32>,
                 b: u32, buffer: array<byte>)
    requires Called(c, was, pinned, es, pins) && Held(was, b, buffer) && pins[b] > 0 && b != INVALID_BNO
    ensures Held(es, b, buffer)
  {
    var i :| 0 <= i < |was| && was[i].bno == b && was[i].data == buffer && was[i].refcount > 0;
    assert es[i].bno == b;
  }
}
