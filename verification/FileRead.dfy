/**
 Reading a file of an HFS+ volume: the extents of OpenHfsPlus/fsw_hfsplus.c and the
 read loop of OpenHfsPlus/fsw_core.c, over the block cache. A file is a flat
 sequence of bytes: its blocks, one after another, cut off at its size.
 */
module FileRead {
  import opened Words
  import opened BlockCache

  // ----- Arithmetic -----

  /** The sum of two unsigned 32-bit values, which wraps around. */
  function Add32(x: u32, y: u32): u32 {
    var sum: int := x + y;
    if sum < 0x1_0000_0000 then sum else sum - 0x1_0000_0000
  }

  ghost function Pow2(k: nat): (p: nat)
    ensures p > 0
  {
    if k == 0 then 1 else 2 * Pow2(k - 1)
  }

  /** The operator & on unsigned values, bit by bit. */
  function And(x: nat, y: nat): nat
    decreases x
  {
    if x == 0 || y == 0 then 0 else 2 * And(x / 2, y / 2) + if x % 2 == 1 && y % 2 == 1 then 1 else 0
  }

  /** Masking with a power of two less one is taking the remainder. */
  lemma {:induction false} MaskIsRemainder(x: nat, k: nat)
    ensures And(x, Pow2(k) - 1) == x % Pow2(k)
    decreases k
  {
    hide And, Pow2;
    Pow2Next(k);
    if k == 0 {
      AndZero(x);
    } else {
      var p := Pow2(k - 1);
      MaskIsRemainder(x / 2, k - 1);
      AndOdd(x, p - 1);
      HalfRemainder(x, p);
    }
  }

  lemma Pow2Next(k: nat)
    ensures Pow2(k) == if k == 0 then 1 else 2 * Pow2(k - 1)
  {
  }

  lemma AndZero(x: nat)
    ensures And(x, 0) == 0
  {
  }

  lemma AndOdd(x: nat, y: nat)
    ensures And(x, 2 * y + 1) == 2 * And(x / 2, y) + x % 2
  {
    assert (2 * y + 1) / 2 == y;
  }

  lemma HalfRemainder(x: nat, p: nat)
    requires p > 0
    ensures x % (2 * p) == 2 * (x / 2 % p) + x % 2
  {
    var q, r := x / 2 / p, x / 2 % p;
    assert x / 2 == q * p + r;
    assert x == (2 * p) * q + (2 * r + x % 2);
    Remainder(x, 2 * p, q, 2 * r + x % 2);
  }

  lemma Multiple(d: int, e: int)
    requires d > 0
    ensures e >= 1 ==> d * e >= d
    ensures e <= -1 ==> d * e <= -d
  {
    assert d * e == d * (e - 1) + d && d * e == d * (e + 1) - d;
  }

  /** Quotient and remainder are determined. */
  lemma Remainder(x: int, d: int, q: int, r: int)
    requires d > 0 && x == d * q + r && 0 <= r < d
    ensures x / d == q && x % d == r
  {
    var e := x / d - q;
    assert d * e == d * (x / d) - d * q == r - x % d;
    Multiple(d, e);
  }

  /** Where block i begins. */
  ghost function Offset(i: nat, size: nat): nat {
    if i == 0 then 0 else Offset(i - 1, size) + size
  }

  lemma {:induction false} OffsetMonotone(i: nat, j: nat, size: nat)
    requires i < j
    ensures Offset(i, size) + size <= Offset(j, size)
    decreases j
  {
    if i < j - 1 {
      OffsetMonotone(i, j - 1, size);
    }
  }

  /** A position within the file, split into block and place; block numbers count from the extent's first. */
  lemma {:induction false} OffsetIsProduct(i: nat, size: nat)
    ensures Offset(i, size) == i * size
  {
    if i > 0 {
      OffsetIsProduct(i - 1, size);
      assert i * size == (i - 1) * size + size;
    }
  }

  lemma WithinExtent(pos: nat, size: nat, first: nat)
    requires size > 0 && first <= pos / size
    ensures 0 <= pos - first * size
    ensures (pos - first * size) / size == pos / size - first
    ensures (pos - first * size) % size == pos % size
  {
    var q := pos / size - first;
    assert pos == size * (pos / size) + pos % size;
    assert pos - first * size == size * q + pos % size;
    assert size * q >= 0;
    Remainder(pos - first * size, size, q, pos % size);
  }

  lemma Quotient(x: nat, d: nat)
    requires d > 0
    ensures 0 <= x / d <= x && x == (x / d) * d + x % d
  {
    var q := x / d;
    if q > 0 {
      Multiple(q, d);
    }
  }

  /** The block of the file that a position is in; the rest r is the place within it. */
  method LogicalBlock(pos: u32, size: nat) returns (i: u32, ghost r: nat)
    requires size > 0
    ensures Offset(i, size) <= pos < Offset(i, size) + size
    ensures r < size && pos == Offset(i, size) + r
  {
    Quotient(pos, size);
    i, r := pos / size, pos % size;
    OffsetIsProduct(i, size);
  }

  /** The block on the disk and the place within it, relative to an extent that begins at block first of the file. */
  method PhysicalBlock(pos: u32, size: nat, first: u32, phys: u32, ghost shift: nat, ghost i: u32, ghost r: nat)
    returns (bno: u32, inBlock: nat)
    requires size == Pow2(shift) && first <= i && r < size && pos == Offset(i, size) + r
    ensures bno == Add32(phys, i - first) && inBlock == r
  {
    OffsetIsProduct(i, size);
    Remainder(pos, size, i, r);
    WithinExtent(pos, size, first);
    var posInExtent := pos - first * size;
    bno := Add32(phys, posInExtent / size);
    MaskIsRemainder(posInExtent, shift);
    inBlock := And(posInExtent, size - 1);
  }

  // ----- Positions of 32 bits -----

  const FOUR_GIB := 0x1_0000_0000

  lemma {:induction false} Pow2Sum(a: nat, b: nat)
    ensures Pow2(a + b) == Pow2(a) * Pow2(b)
  {
    if a > 0 {
      Pow2Sum(a - 1, b);
      assert Pow2(a + b) == 2 * Pow2((a - 1) + b);
      assert Pow2(a) * Pow2(b) == 2 * (Pow2(a - 1) * Pow2(b));
    }
  }

  lemma Pow2At32()
    ensures Pow2(32) == FOUR_GIB
  {
    assert Pow2(8) == 256;
    Pow2Sum(8, 8);
    Pow2Sum(16, 16);
  }

  /** Blocks of a power-of-two size do not straddle the 4 GiB limit. */
  lemma BlockEndsBelow(i: nat, shift: nat)
    requires shift <= 32 && Offset(i, Pow2(shift)) < FOUR_GIB
    ensures Offset(i, Pow2(shift)) + Pow2(shift) <= FOUR_GIB
  {
    var size, q := Pow2(shift), Pow2(32 - shift);
    Pow2At32();
    Pow2Sum(32 - shift, shift);
    OffsetIsProduct(i, size);
    OffsetIsProduct(q, size);
    if i >= q {
      if i > q {
        OffsetMonotone(q, i, size);
      }
    } else if i + 1 < q {
      OffsetMonotone(i, q, size);
    }
  }

  /** The bytes that a position of 32 bits passes from pos on are all there. */
  ghost predicate InReach(c: seq<byte>, pos: nat, n: nat) {
    forall k {:trigger At32(pos, k)} :: 0 <= k < n ==> At32(pos, k) < |c|
  }

  function At32(pos: nat, k: int): (r: int)
    ensures r == (pos + k) % 0x1_0000_0000
  {
    (pos + k) % FOUR_GIB
  }

  /** These bytes: at 4 GiB the position goes back to the start. */
  ghost function Window(c: seq<byte>, pos: nat, n: nat): (r: seq<byte>)
    requires InReach(c, pos, n)
    ensures |r| == n && forall k :: 0 <= k < n ==> r[k] == c[At32(pos, k)]
  {
    seq(n, k requires 0 <= k < n => c[At32(pos, k)])
  }

  lemma WindowStart(c: seq<byte>, pos: nat)
    ensures InReach(c, pos, 0) && Window(c, pos, 0) == []
  {
  }

  lemma StillInFile(pos: nat, n: nat, size: nat)
    requires pos % FOUR_GIB + n < size
    ensures 0 <= At32(pos, n) < FOUR_GIB && At32(pos, n) < size
  {
  }

  lemma Onward(pos: nat, n: nat, p: int, k: nat)
    requires p == At32(pos, n) && p + k < FOUR_GIB
    ensures At32(pos, n + k) == p + k
  {
  }

  /** One chunk more, which ends at the limit at the latest. */
  lemma WindowNext(c: seq<byte>, pos: nat, n: nat, p: int, m: nat)
    requires InReach(c, pos, n) && p == At32(pos, n) && p + m <= FOUR_GIB && p + m <= |c|
    ensures InReach(c, pos, n + m) && Window(c, pos, n + m) == Window(c, pos, n) + c[p..p + m]
  {
    forall k | n <= k < n + m
      ensures At32(pos, k) == p + (k - n)
    {
      Onward(pos, n, p, k - n);
    }
  }

  /** Up to the limit the window is a plain stretch of the bytes. */
  lemma WindowStraight(c: seq<byte>, pos: nat, n: nat)
    requires InReach(c, pos, n) && n > 0 && pos + n <= FOUR_GIB
    ensures pos + n <= |c| && Window(c, pos, n) == c[pos..pos + n]
  {
    assert forall k :: 0 <= k < n ==> At32(pos, k) == pos + k;
    assert At32(pos, n - 1) == pos + (n - 1);
  }

  // ----- Extents -----

  datatype Extent = Extent(startBlock: u32, blockCount: u32)

  const EXTENT_DENSITY := 8

  /** The blocks from start on; numbers are 32 bits wide and wrap around. */
  ghost function Run(start: u32, count: u32): (r: seq<u32>)
    ensures |r| == count && forall i :: 0 <= i < count ==> r[i] == Add32(start, i)
  {
    if count == 0 then [] else Run(start, count - 1) + [Add32(start, count - 1)]
  }

  lemma AddAgain(a: u32, b: u32, c: u32)
    requires b + c < 0x1_0000_0000
    ensures Add32(Add32(a, b), c) == Add32(a, b + c)
  {
  }

  /** The blocks of a file in order, up to the first empty extent. */
  ghost function Blocks(es: seq<Extent>): seq<u32> {
    if es == [] || es[0].blockCount == 0 then [] else Run(es[0].startBlock, es[0].blockCount) + Blocks(es[1..])
  }

  /** From index log on, count blocks follow one another on the disk from phys on. */
  ghost predicate Maps(blocks: seq<u32>, log: nat, phys: u32, count: u32) {
    log + count <= |blocks|
    && forall j :: log <= j < log + count ==> blocks[j] == Add32(phys, j - log)
  }

  datatype Mapping = Mapped(physStart: u32, count: u32) | NotFound | Unsupported

  /** fsw_hfsplus_get_ext: the extent that holds a block of the file, from that block on. */
  method GetExtent(es: seq<Extent>, logStart: u32) returns (m: Mapping)
    requires |es| == 8
    ensures m.Mapped? <==> logStart < |Blocks(es)|
    ensures m.Mapped? ==> m.count > 0 && Maps(Blocks(es), logStart, m.physStart, m.count)
    ensures m.NotFound? ==> exists e <- es :: e.blockCount == 0
    ensures m.Unsupported? ==> forall e <- es :: e.blockCount != 0
  {
    var off: int := logStart;
    ghost var passed: seq<u32> := [];
    for i := 0 to EXTENT_DENSITY
      invariant off >= 0 && Peeled(es, i, passed) && |passed| + off == logStart
      invariant forall j :: 0 <= j < i ==> es[j].blockCount != 0
    {
      var e := es[i];
      assert e in es;
      if e.blockCount == 0 {
        return NotFound;
      }
      if off < e.blockCount {
        PeelMaps(es, i, passed, off);
        return Mapped(Add32(e.startBlock, off), e.blockCount - off);
      }
      PeelOff(es, i, passed);
      off := off - e.blockCount;
      passed := passed + Run(e.startBlock, e.blockCount);
    }
    return Unsupported;
  }

  /** The extents before i hold the blocks passed. */
  ghost predicate Peeled(es: seq<Extent>, i: nat, passed: seq<u32>) {
    i <= |es| && Blocks(es) == passed + Blocks(es[i..])
  }

  lemma Peel(es: seq<Extent>, i: nat, passed: seq<u32>)
    requires Peeled(es, i, passed) && i < |es| && es[i].blockCount != 0
    ensures Blocks(es) == passed + (Run(es[i].startBlock, es[i].blockCount) + Blocks(es[i + 1..]))
  {
    assert es[i..][1..] == es[i + 1..];
  }

  lemma PeelOff(es: seq<Extent>, i: nat, passed: seq<u32>)
    requires Peeled(es, i, passed) && i < |es| && es[i].blockCount != 0
    ensures Peeled(es, i + 1, passed + Run(es[i].startBlock, es[i].blockCount))
  {
    Peel(es, i, passed);
    Regroup(passed, Run(es[i].startBlock, es[i].blockCount), Blocks(es[i + 1..]));
  }

  lemma PeelMaps(es: seq<Extent>, i: nat, passed: seq<u32>, off: nat)
    requires Peeled(es, i, passed) && i < |es| && off < es[i].blockCount
    ensures Maps(Blocks(es), |passed| + off, Add32(es[i].startBlock, off), es[i].blockCount - off)
  {
    Peel(es, i, passed);
    InRun(passed, es[i].startBlock, es[i].blockCount, Blocks(es[i + 1..]), off);
  }

  lemma Regroup(a: seq<u32>, b: seq<u32>, c: seq<u32>)
    ensures a + (b + c) == (a + b) + c
  {
  }

  lemma InRun(passed: seq<u32>, start: u32, count: u32, rest: seq<u32>, off: nat)
    requires off < count
    ensures Maps(passed + (Run(start, count) + rest), |passed| + off, Add32(start, off), count - off)
  {
    var all, log := passed + (Run(start, count) + rest), |passed| + off;
    forall j | log <= j < log + (count - off)
      ensures all[j] == Add32(Add32(start, off), j - log)
    {
      assert all[j] == Run(start, count)[j - |passed|];
      AddAgain(start, off, j - log);
    }
  }

  // ----- A file as bytes -----

  /** The bytes of block b; blocks that are not on the disk do not matter. */
  ghost function BlockBytes(disk: map<u32, seq<byte>>, size: nat, b: u32): seq<byte> {
    if b in disk then disk[b] else seq(size, _ => 0)
  }

  ghost function Content(disk: map<u32, seq<byte>>, size: nat, blocks: seq<u32>): seq<byte> {
    if blocks == [] then []
    else Content(disk, size, blocks[..|blocks| - 1]) + BlockBytes(disk, size, blocks[|blocks| - 1])
  }

  ghost predicate DiskOk(disk: map<u32, seq<byte>>, size: nat) {
    forall b <- disk :: |disk[b]| == size
  }

  lemma {:induction false} ContentLength(disk: map<u32, seq<byte>>, size: nat, blocks: seq<u32>)
    requires DiskOk(disk, size)
    ensures |Content(disk, size, blocks)| == Offset(|blocks|, size)
  {
    if blocks != [] {
      ContentLength(disk, size, blocks[..|blocks| - 1]);
    }
  }

  /** Block i of the content is block i of the list. */
  lemma {:induction false} ContentBlock(disk: map<u32, seq<byte>>, size: nat, blocks: seq<u32>, i: nat)
    requires DiskOk(disk, size) && i < |blocks|
    ensures Offset(i, size) + size <= |Content(disk, size, blocks)|
    ensures Content(disk, size, blocks)[Offset(i, size)..Offset(i, size) + size] == BlockBytes(disk, size, blocks[i])
  {
    hide Offset;
    var n := |blocks| - 1;
    var front := blocks[..n];
    var c, last := Content(disk, size, front), BlockBytes(disk, size, blocks[n]);
    ContentLength(disk, size, front);
    assert Content(disk, size, blocks) == c + last && |last| == size;
    if i < n {
      assert front[i] == blocks[i];
      ContentBlock(disk, size, front, i);
      InFront(c, last, Offset(i, size), Offset(i, size) + size);
    } else {
      InBack(c, last);
    }
  }

  lemma InBack(a: seq<byte>, b: seq<byte>)
    ensures (a + b)[|a|..|a| + |b|] == b
  {
  }

  lemma InFront(a: seq<byte>, b: seq<byte>, i: nat, j: nat)
    requires i <= j <= |a|
    ensures (a + b)[i..j] == a[i..j]
  {
  }

  /** How many blocks the extents before i have. */
  ghost function BlocksBefore(es: seq<Extent>, i: nat): nat
    requires i <= |es|
  {
    if i == 0 then 0 else BlocksBefore(es, i - 1) + es[i - 1].blockCount
  }

  lemma {:induction false} BlocksBeforeTail(es: seq<Extent>, i: nat)
    requires 0 < i <= |es|
    ensures BlocksBefore(es, i) == es[0].blockCount + BlocksBefore(es[1..], i - 1)
  {
    if i > 1 {
      BlocksBeforeTail(es, i - 1);
    }
  }

  lemma BlocksBeforeNone(es: seq<Extent>)
    ensures BlocksBefore(es, 0) == 0
  {
  }

  /** Block k of extent i comes after the blocks of the extents before, and is k blocks on from the extent's first. */
  lemma {:induction false} BlockOfExtent(es: seq<Extent>, i: nat, k: nat)
    requires i < |es| && k < es[i].blockCount && forall j :: 0 <= j <= i ==> es[j].blockCount > 0
    ensures BlocksBefore(es, i) + k < |Blocks(es)|
    ensures Blocks(es)[BlocksBefore(es, i) + k] == (es[i].startBlock + k) % 0x1_0000_0000
  {
    hide Run, BlocksBefore;
    assert Blocks(es) == Run(es[0].startBlock, es[0].blockCount) + Blocks(es[1..]);
    if i == 0 {
      BlocksBeforeNone(es);
    } else {
      BlockOfExtent(es[1..], i - 1, k);
      BlocksBeforeTail(es, i);
    }
  }

  /** The first empty extent, or the last of all, ends the file's blocks. */
  lemma {:induction false} BlocksEnd(es: seq<Extent>, i: nat)
    requires i <= |es| && (i == |es| || es[i].blockCount == 0)
    requires forall j :: 0 <= j < i ==> es[j].blockCount > 0
    ensures |Blocks(es)| == BlocksBefore(es, i)
  {
    if i > 0 {
      BlocksEnd(es[1..], i - 1);
      BlocksBeforeTail(es, i);
    }
  }

  /** Where a byte of the file is on the disk. */
  lemma ByteOfFile(disk: map<u32, seq<byte>>, size: nat, es: seq<Extent>, i: nat, k: nat, b: u32, r: nat, at: nat)
    requires DiskOk(disk, size) && b in disk && r < size
    requires i < |es| && k < es[i].blockCount && forall j :: 0 <= j <= i ==> es[j].blockCount > 0
    requires b == (es[i].startBlock + k) % 0x1_0000_0000 && at == (BlocksBefore(es, i) + k) * size + r
    ensures at < |Content(disk, size, Blocks(es))| && Content(disk, size, Blocks(es))[at] == disk[b][r]
  {
    hide Blocks, Content, Offset, BlocksBefore;
    var n := BlocksBefore(es, i) + k;
    BlockOfExtent(es, i, k);
    OffsetIsProduct(n, size);
    PieceAt(disk, size, Blocks(es), n, r, 1, at, b);
    assert Content(disk, size, Blocks(es))[at..at + 1][0] == disk[b][r..r + 1][0];
  }

  lemma FileLength(disk: map<u32, seq<byte>>, size: nat, es: seq<Extent>, i: nat)
    requires DiskOk(disk, size) && i <= |es| && (i == |es| || es[i].blockCount == 0)
    requires forall j :: 0 <= j < i ==> es[j].blockCount > 0
    ensures |Content(disk, size, Blocks(es))| == BlocksBefore(es, i) * size
  {
    BlocksEnd(es, i);
    ContentLength(disk, size, Blocks(es));
    OffsetIsProduct(BlocksBefore(es, i), size);
  }

  /** A piece of one block, found in the content at position p. */
  lemma PieceAt(disk: map<u32, seq<byte>>, size: nat, blocks: seq<u32>, i: nat, from: nat, len: nat, p: nat, b: u32)
    requires DiskOk(disk, size) && i < |blocks| && from + len <= size
    requires p == Offset(i, size) + from && b == blocks[i] && b in disk
    ensures |disk[b]| == size && p + len <= |Content(disk, size, blocks)|
    ensures Content(disk, size, blocks)[p..p + len] == disk[b][from..from + len]
  {
    ContentBlock(disk, size, blocks, i);
    var c, a := Content(disk, size, blocks), Offset(i, size);
    SubSlice(c, a, a + size, from, from + len);
    assert c[a..a + size] == disk[b];
    assert a + from == p && a + (from + len) == p + len;
  }

  lemma SubSlice(c: seq<byte>, a: nat, b: nat, from: nat, to: nat)
    requires a <= b <= |c| && from <= to <= b - a
    ensures c[a..b][from..to] == c[a + from..a + to]
  {
    forall k | 0 <= k < to - from
      ensures c[a..b][from..to][k] == c[a + from..a + to][k]
    {
    }
  }

  // ----- The handle -----

  /** The extent that the handle remembers from its last access. */
  datatype Current = Invalid | Physical(logStart: u32, physStart: u32, logCount: u32)

  ghost predicate Right(c: Current, blocks: seq<u32>) {
    c.Physical? ==> Maps(blocks, c.logStart, c.physStart, c.logCount)
  }

  /** Block logBno lies in the remembered extent. */
  ghost predicate Covers(c: Current, logBno: int) {
    c.Physical? && c.logStart <= logBno < c.logStart + c.logCount
  }

  /** A storage handle on a file. */
  class Handle {
    const cache: Cache
    const extents: seq<Extent>
    const size: nat
    const isFile: bool
    ghost const shift: nat
    var pos: nat
    var extent: Current

    /** fsw_shandle_open */
    constructor (cache: Cache, extents: seq<Extent>, size: nat, isFile: bool, ghost shift: nat)
      requires cache.Valid() && cache.blockSize == Pow2(shift) && shift < 32
      requires |extents| == 8 && INVALID_BNO !in Blocks(extents)
      ensures Valid() && this.cache == cache && this.extents == extents && this.size == size
      ensures this.isFile == isFile && pos == 0
    {
      this.cache, this.extents, this.size, this.isFile, this.shift := cache, extents, size, isFile, shift;
      pos, extent := 0, Invalid;
    }

    /**
     A volume whose block size is a power of two of 32 bits, and no block with the
     number that marks free cache entries; size and position can be anything.
     */
    ghost predicate Valid()
      reads this, cache, Arrays(cache.entries)
    {
      cache.Valid() && cache.blockSize == Pow2(shift) && shift < 32
      && |extents| == 8 && INVALID_BNO !in Blocks(extents) && Right(extent, Blocks(extents))
    }

    /** All bytes of the file's blocks; the file's own are the first size of them. */
    ghost function Bytes(): seq<byte>
    {
      Content(cache.disk, cache.blockSize, Blocks(extents))
    }

    /** Every block of the file is on the disk. */
    ghost predicate OnDisk()
    {
      forall i :: 0 <= i < |Blocks(extents)| ==> Blocks(extents)[i] in cache.disk
    }

    /** The remembered extent is replaced unless it holds the block. */
    method Locate(logBno: u32) returns (ok: bool)
      requires |extents| == 8 && Right(extent, Blocks(extents))
      modifies this`extent
      ensures Right(extent, Blocks(extents))
      ensures ok <==> logBno < |Blocks(extents)|
      ensures if ok then Covers(extent, logBno) else extent == Invalid
    {
      if extent.Invalid? || logBno < extent.logStart || logBno >= Add32(extent.logStart, extent.logCount) {
        var m := GetExtent(extents, logBno);
        if !m.Mapped? {
          extent := Invalid;
          return false;
        }
        extent := Physical(logBno, m.physStart, m.count);
      }
      return true;
    }

    /** The physical block of a position, the place in it, and its index i among the file's blocks. */
    method Translate(p: u32) returns (ok: bool, physBno: u32, inBlock: nat, ghost i: u32)
      requires cache.blockSize == Pow2(shift) && |extents| == 8 && Right(extent, Blocks(extents))
      requires DiskOk(cache.disk, cache.blockSize)
      modifies this`extent
      ensures Right(extent, Blocks(extents))
      ensures ok ==> i < |Blocks(extents)| && physBno == Blocks(extents)[i]
      ensures ok ==> inBlock < cache.blockSize && p == Offset(i, cache.blockSize) + inBlock
      ensures !ok ==> |Bytes()| <= p
    {
      ghost var r;
      var logBno;
      logBno, r := LogicalBlock(p, cache.blockSize);
      i, physBno, inBlock := logBno, 0, 0;
      ok := Locate(logBno);
      if !ok {
        PastEnd(cache.disk, cache.blockSize, Blocks(extents), i);
        return;
      }
      assert Blocks(extents)[logBno] == Add32(extent.physStart, logBno - extent.logStart);
      physBno, inBlock := PhysicalBlock(p, cache.blockSize, extent.logStart, extent.physStart, shift, i, r);
    }

    /** Part of one block goes to place done of the buffer. */
    method ReadChunk(buffer: array<byte>, done: nat, p: u32, buflen: u32) returns (ok: bool, n: nat)
      requires Valid() && buffer !in cache.heap
      requires done + buflen <= buffer.Length && buflen > 0
      modifies this`extent, cache, Arrays(cache.entries), buffer
      ensures Valid() && buffer !in cache.heap && fresh(cache.heap - old(cache.heap))
      ensures cache.pins == old(cache.pins)
      ensures OnlyLevel(old(cache.entries), cache.entries, if isFile then 0 else 1)
      ensures ok ==> 0 < n <= buflen && p + n <= |Bytes()| && p + n <= FOUR_GIB
      ensures ok ==> buffer[..done + n] == old(buffer[..done]) + Bytes()[p..p + n]
      ensures !ok ==> !cache.reliable || !OnDisk() || |Bytes()| <= p
    {
      var physBno, inBlock;
      ghost var i;
      ok, physBno, inBlock, i := Translate(p);
      if !ok {
        return false, 0;
      }
      BlockEndsBelow(i, shift);
      ok, n := ReadFromBlock(buffer, done, p, buflen, physBno, inBlock, i);
    }

    /** As much of one block as is there and asked for. */
    method ReadFromBlock(buffer: array<byte>, done: nat, p: u32, buflen: u32, physBno: u32, inBlock: nat, ghost i: u32)
      returns (ok: bool, n: nat)
      requires Valid() && buffer !in cache.heap && done + buflen <= buffer.Length && buflen > 0
      requires i < |Blocks(extents)| && physBno == Blocks(extents)[i]
      requires inBlock < cache.blockSize && p == Offset(i, cache.blockSize) + inBlock
      modifies cache, Arrays(cache.entries), buffer
      ensures Valid() && buffer !in cache.heap && fresh(cache.heap - old(cache.heap))
      ensures cache.pins == old(cache.pins)
      ensures OnlyLevel(old(cache.entries), cache.entries, if isFile then 0 else 1)
      ensures ok ==> 0 < n <= buflen && inBlock + n <= cache.blockSize && p + n <= |Bytes()|
      ensures ok ==> buffer[..done + n] == old(buffer[..done]) + Bytes()[p..p + n]
      ensures !ok ==> !cache.reliable || !OnDisk()
    {
      n := cache.blockSize - inBlock;
      if n > buflen {
        n := buflen;
      }
      assert Blocks(extents)[i] == physBno && physBno in Blocks(extents);
      if physBno in cache.disk {
        PieceAt(cache.disk, cache.blockSize, Blocks(extents), i, inBlock, n, p, physBno);
      }
      ok := CopyFromBlock(cache, physBno, if isFile then 0 else 1, inBlock, n, buffer, done, Bytes(), p);
    }

    /**
     fsw_shandle_read: the bytes from the position on, as many as asked for or as
     there are. The loop keeps the position in 32 bits: up to 4 GiB the bytes are those
     of the file, beyond it they come from its start again, and the position is cut
     down. A read that fails leaves the position, and fails only if a service does or
     the file's extents do not cover its size with blocks of the disk.
     */
    method Read(buffer: array<byte>, len: u32) returns (ok: bool, n: nat)
      requires Valid() && buffer !in cache.heap && len <= buffer.Length
      modifies this`pos, this`extent, cache, Arrays(cache.entries), buffer
      ensures Valid() && buffer !in cache.heap && fresh(cache.heap - old(cache.heap))
      ensures cache.pins == old(cache.pins)
      // file data is kept at level 0 in the cache, other data at level 1
      ensures OnlyLevel(old(cache.entries), cache.entries, if isFile then 0 else 1)
      ensures ok ==>
                n == if old(pos) >= size then 0
                     else if len > size - old(pos) % 0x1_0000_0000 then size - old(pos) % 0x1_0000_0000 else len
      ensures ok ==> InReach(Bytes(), old(pos), n)
                     && forall k :: 0 <= k < n ==> buffer[k] == Bytes()[At32(old(pos), k)]
      ensures ok && n > 0 && old(pos) + n <= 0x1_0000_0000 ==>
                old(pos) + n <= |Bytes()| && buffer[..n] == Bytes()[old(pos)..old(pos) + n]
      ensures ok && old(pos) < size ==> pos == (old(pos) + n) % 0x1_0000_0000
      ensures ok && old(pos) < size ==> (pos == old(pos) + n <==> old(pos) + n < 0x1_0000_0000)
      ensures !ok || old(pos) >= size ==> pos == old(pos)
      ensures !ok ==> !cache.reliable || !OnDisk() || |Bytes()| < size
    {
      hide Window, InReach, TableOk, Maps, Content, Blocks;
      if pos >= size {
        WindowStart(Bytes(), pos);
        return true, 0;
      }
      var buflen := len;
      var start: u32 := pos % FOUR_GIB;
      if buflen > size - start {
        buflen := size - start;
      }
      ok := ReadRange(buffer, buflen);
      n := 0;
      if ok {
        n := buflen;
        if n > 0 && pos + n <= FOUR_GIB {
          WindowStraight(Bytes(), pos, n);
        }
        pos := At32(pos, n);
      }
    }

    /** The loop of the read: total bytes from the position on. */
    method ReadRange(buffer: array<byte>, total: u32) returns (ok: bool)
      requires Valid() && buffer !in cache.heap && total <= buffer.Length && pos % FOUR_GIB + total <= size
      modifies this`extent, cache, Arrays(cache.entries), buffer
      ensures Valid() && buffer !in cache.heap && fresh(cache.heap - old(cache.heap))
      ensures cache.pins == old(cache.pins)
      ensures OnlyLevel(old(cache.entries), cache.entries, if isFile then 0 else 1)
      ensures ok ==> InReach(Bytes(), pos, total) && buffer[..total] == Window(Bytes(), pos, total)
      ensures !ok ==> !cache.reliable || !OnDisk() || |Bytes()| < size
    {
      hide Window, InReach, At32, TableOk, Maps, Content, Blocks;
      var n := 0;
      ghost var c := Bytes();
      WindowStart(c, pos);
      while n < total
        invariant Valid() && buffer !in cache.heap && fresh(cache.heap - old(cache.heap))
        invariant cache.pins == old(cache.pins) && n <= total
        invariant OnlyLevel(old(cache.entries), cache.entries, if isFile then 0 else 1)
        invariant InReach(c, pos, n) && buffer[..n] == Window(c, pos, n)
      {
        var copied;
        ghost var before := cache.entries;
        StillInFile(pos, n, size);
        var p: u32 := At32(pos, n);
        ok, copied := ReadChunk(buffer, n, p, total - n);
        OnlyAgain(old(cache.entries), before, cache.entries, if isFile then 0 else 1);
        if !ok {
          return false;
        }
        WindowNext(c, pos, n, p, copied);
        n := n + copied;
      }
      return true;
    }
  }

  /** Part of a block, the file's bytes from p on, is copied while the block is in use. */
  method CopyFromBlock(cache: Cache, bno: u32, level: nat, start: nat, n: nat, buffer: array<byte>, done: nat,
                       ghost file: seq<byte>, ghost p: nat)
    returns (ok: bool)
    requires cache.Valid() && buffer !in cache.heap && bno != INVALID_BNO && level <= MAX_CACHE_LEVEL
    requires start + n <= cache.blockSize && done + n <= buffer.Length
    requires bno in cache.disk ==>
               |cache.disk[bno]| == cache.blockSize && p + n <= |file|
               && file[p..p + n] == cache.disk[bno][start..start + n]
    modifies cache, Arrays(cache.entries), buffer
    ensures cache.Valid() && buffer !in cache.heap && fresh(cache.heap - old(cache.heap))
    ensures cache.pins == old(cache.pins)
    ensures OnlyLevel(old(cache.entries), cache.entries, level)
    ensures cache.reliable && bno in cache.disk ==> ok
    ensures ok ==> bno in cache.disk && p + n <= |file| && buffer[..done + n] == old(buffer[..done]) + file[p..p + n]
  {
    var block;
    ok, block := cache.Get(bno, level);
    ghost var got := cache.entries;
    GotOnly(old(cache.entries), got, bno, level);
    if ok {
      assert block[start..start + n] == block[..][start..start + n];
      Copy(buffer, done, block, start, n);
      cache.Release(bno);
      ReleasedOnly(got, cache.entries, bno, level);
      OnlyAgain(old(cache.entries), got, cache.entries, level);
    }
  }

  lemma PastEnd(disk: map<u32, seq<byte>>, size: nat, blocks: seq<u32>, i: nat)
    requires DiskOk(disk, size) && i >= |blocks|
    ensures |Content(disk, size, blocks)| <= Offset(i, size)
  {
    ContentLength(disk, size, blocks);
    if |blocks| < i {
      OffsetMonotone(|blocks|, i, size);
    }
  }

  /** fsw_memcpy */
  method Copy(to: array<byte>, at: nat, from: array<byte>, start: nat, n: nat)
    requires to != from && at + n <= to.Length && start + n <= from.Length
    modifies to
    ensures to[..at + n] == old(to[..at]) + from[start..start + n]
  {
    forall i | 0 <= i < n {
      to[at + i] := from[start + i];
    }
    assert to[at..at + n] == from[start..start + n];
  }
}
