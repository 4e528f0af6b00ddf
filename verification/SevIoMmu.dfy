/**
 The SEV IOMMU protocol of IoMmuDxe/AmdSevIoMmu.c: bounce buffers for bus master
 reads and writes, and in-place decryption of common buffers by way of a stash.
 Changing the encryption mask of a page leaves the contents of the page open.
 */
module SevIoMmu {
  import opened Words

  const BASE_4GB := 0x1_0000_0000
  const MAX_UINTN := 0xFFFF_FFFF_FFFF_FFFF

  datatype Operation = Read | Write | CommonBuffer | Read64 | Write64 | CommonBuffer64 | OtherOperation {
    predicate IsRead() { Read? || Read64? }
    predicate IsWrite() { Write? || Write64? }
    predicate IsCommon() { CommonBuffer? || CommonBuffer64? }
  }

  datatype Status = Success | InvalidParameter | OutOfResources | Unsupported

  /** MAP_INFO. The plaintext buffer starts at a page; the crypted address is the host's. */
  datatype MapInfo = MapInfo(id: nat, operation: Operation, bytes: nat, crypted: nat, plainPage: nat) {
    function Pages(): nat {
      SizeToPages(bytes)
    }

    function Plain(): nat {
      4096 * plainPage
    }

    ghost function PlainPages(): set<nat> {
      PageRange(plainPage, Pages())
    }
  }

  function SizeToPages(n: nat): (k: nat)
    ensures n <= 4096 * k < n + 4096
  {
    (n + 4095) / 4096
  }

  predicate Between(p: int, first: nat, count: nat) {
    first <= p < first + count
  }

  function PageRange(first: nat, count: nat): (r: set<nat>)
    ensures forall p :: p in r <==> Between(p, first, count)
  {
    set p | first <= p < first + count && Between(p, first, count)
  }

  /** The plaintext pages of all the mappings in effect. */
  ghost function PlainSet(ms: seq<MapInfo>): set<nat> {
    if ms == [] then {} else ms[0].PlainPages() + PlainSet(ms[1..])
  }

  lemma {:induction false} PlainSetConcat(a: seq<MapInfo>, b: seq<MapInfo>)
    ensures PlainSet(a + b) == PlainSet(a) + PlainSet(b)
  {
    if a == [] {
      assert a + b == b;
    } else {
      assert (a + b)[1..] == a[1..] + b;
      PlainSetConcat(a[1..], b);
    }
  }

  lemma {:induction false} InPlainSet(ms: seq<MapInfo>, p: nat)
    ensures p in PlainSet(ms) <==> exists m :: m in ms && p in m.PlainPages()
  {
    if ms != [] {
      InPlainSet(ms[1..], p);
      assert forall m :: m in ms <==> m == ms[0] || m in ms[1..];
    }
  }

  function Without(ms: seq<MapInfo>, i: nat): seq<MapInfo>
    requires i < |ms|
  {
    ms[..i] + ms[i + 1..]
  }

  /** No two mappings share a plaintext page. */
  ghost predicate Disjoint(ms: seq<MapInfo>) {
    forall i, j :: 0 <= i < j < |ms| ==> ms[i].PlainPages() !! ms[j].PlainPages()
  }

  lemma SplitAt<T>(s: seq<T>, i: nat)
    requires i < |s|
    ensures s == s[..i] + ([s[i]] + s[i + 1..]) && ([s[i]] + s[i + 1..])[1..] == s[i + 1..]
  {
  }

  lemma PlainSetSplit(ms: seq<MapInfo>, i: nat)
    requires i < |ms|
    ensures PlainSet(ms) == PlainSet(Without(ms, i)) + ms[i].PlainPages()
  {
    SplitAt(ms, i);
    PlainSetConcat(ms[..i], [ms[i]] + ms[i + 1..]);
    PlainSetConcat(ms[..i], ms[i + 1..]);
  }

  /**
   Mappings must not share pages: re-encrypting the pages of one mapping
   leaves the masks right if and only if no other mapping uses any of them.
   */
  lemma UnmapExactIff(ms: seq<MapInfo>, i: nat)
    requires i < |ms|
    ensures PlainSet(Without(ms, i)) == PlainSet(ms) - ms[i].PlainPages() <==>
            ms[i].PlainPages() !! PlainSet(Without(ms, i))
  {
    PlainSetSplit(ms, i);
  }

  /** Taking one mapping away takes exactly its pages out of the plaintext pages. */
  lemma PlainSetWithout(ms: seq<MapInfo>, i: nat)
    requires i < |ms| && Disjoint(ms)
    ensures PlainSet(Without(ms, i)) == PlainSet(ms) - ms[i].PlainPages()
  {
    UnmapExactIff(ms, i);
    forall p | p in ms[i].PlainPages()
      ensures p !in PlainSet(Without(ms, i))
    {
      InPlainSet(Without(ms, i), p);
    }
  }

  // ----- Memory -----

  lemma PageAddress(p: nat)
    ensures 4096 * p / 4096 == p && 4096 * p % 4096 == 0
  {
  }

  predicate Outside(a: int, lo: int, length: int) {
    a < lo || lo + length <= a
  }

  ghost predicate IsZero(mem: seq<byte>, lo: nat, length: nat) {
    lo + length <= |mem| && forall a :: lo <= a < lo + length ==> mem[a] == 0
  }

  /** Nothing outside the two ranges has changed. */
  ghost predicate Framed(before: seq<byte>, after: seq<byte>, lo: nat, length: nat, lo2: nat, length2: nat) {
    |after| == |before|
    && forall a {:trigger after[a]} ::
         0 <= a < |after| && Outside(a, lo, length) && Outside(a, lo2, length2) ==> after[a] == before[a]
  }

  ghost predicate Apart(lo: nat, length: nat, lo2: nat, length2: nat) {
    length == 0 || length2 == 0 || lo + length <= lo2 || lo2 + length2 <= lo
  }

  /** A range apart from those that may have changed. */
  lemma FramedRange(before: seq<byte>, after: seq<byte>, lo: nat, length: nat, lo2: nat, length2: nat, at: nat, n: nat)
    requires Framed(before, after, lo, length, lo2, length2) && at + n <= |after|
    requires Apart(at, n, lo, length) && Apart(at, n, lo2, length2)
    ensures after[at..at + n] == before[at..at + n]
  {
  }

  /** CopyMem */
  ghost predicate Copies(before: seq<byte>, after: seq<byte>, to: nat, from: nat, n: nat) {
    && to + n <= |after| && from + n <= |after| && Framed(before, after, to, n, 0, 0)
    && after[to..to + n] == before[from..from + n]
  }

  /** By way of a stash, bytes survive a change that leaves their pages open. */
  lemma StashCarries(m0: seq<byte>, m1: seq<byte>, m2: seq<byte>, m3: seq<byte>, plain: nat, length: nat, stash: nat,
                     n: nat)
    requires n <= length && plain + length <= |m0| && Apart(plain, length, stash, n)
    requires Copies(m0, m1, stash, plain, n) && Framed(m1, m2, plain, length, 0, 0) && Copies(m2, m3, plain, stash, n)
    ensures Framed(m0, m3, plain, length, stash, n)
    ensures m3[plain..plain + n] == m0[plain..plain + n]
  {
    FramedRange(m1, m2, plain, length, 0, 0, stash, n);
  }

  /** What one page is used for: by a client, or for a mapping, or for the buffer with the given stash. */
  datatype Owner = Client | Bounce(id: nat) | Common(stash: nat) | Stash(stash: nat)

  /** A buffer from AllocateBuffer, by its header page: the common pages follow the header. */
  datatype Buffer = Buffer(pages: nat, stash: nat)

  function Labelled(owner: map<nat, Owner>, first: nat, count: nat, o: Owner): (r: map<nat, Owner>)
    ensures r.Keys == owner.Keys + PageRange(first, count)
    ensures forall p :: p in r ==> r[p] == if Between(p, first, count) then o else owner[p]
  {
    owner + map p | p in PageRange(first, count) :: o
  }

  /** The pages from first on are free, and their last byte is at or below limit. */
  predicate FreeRun(owner: map<nat, Owner>, pageCount: nat, first: nat, count: nat, limit: nat) {
    && 0 < count && 0 < first && first + count <= pageCount && 4096 * (first + count) - 1 <= limit
    && forall p :: first <= p < first + count ==> p !in owner
  }

  lemma FreeRunExact(owner: map<nat, Owner>, pageCount: nat, first: nat, count: nat, limit: nat)
    ensures FreeRun(owner, pageCount, first, count, limit) <==>
            && count >= 1 && first >= 1 && PageRange(first, count) !! owner.Keys
            && (forall p <- PageRange(first, count) :: p < pageCount)
            && 4096 * (first + count) <= limit + 1
  {
    if PageRange(first, count) !! owner.Keys && count >= 1 {
      assert first + (count - 1) in PageRange(first, count);
      assert forall p :: first <= p < first + count ==> p in PageRange(first, count);
    }
  }

  /** Once a run of pages is taken, what is free is what was free beside it. */
  lemma FreeBeside(before: map<nat, Owner>, after: map<nat, Owner>, pageCount: nat, taken: nat, n: nat,
                   first: nat, count: nat, limit: nat)
    requires n > 0 && forall p :: p in after <==> p in before || taken <= p < taken + n
    ensures FreeRun(after, pageCount, first, count, limit) <==>
            FreeRun(before, pageCount, first, count, limit) && (taken + n <= first || first + count <= taken)
  {
    if FreeRun(after, pageCount, first, count, limit) {
      assert taken in after && (first <= taken < first + count ==> taken !in after);
      assert first !in after;
    }
  }

  ghost predicate AllOwned(owner: map<nat, Owner>, first: nat, count: nat, o: Owner) {
    forall p :: first <= p < first + count ==> p in owner && owner[p] == o
  }

  /** The bytes are a client's: in memory of its own, or in common buffers, their header pages excepted. */
  ghost predicate HostRange(owner: map<nat, Owner>, buffers: map<nat, Buffer>, address: nat, n: nat) {
    forall p :: address / 4096 <= p && 4096 * p < address + n ==>
                  p in owner && p !in buffers && (owner[p].Client? || owner[p].Common?)
  }

  lemma OwnedApart(owner: map<nat, Owner>, p: nat, n: nat, a: Owner, q: nat, m: nat, b: Owner)
    requires AllOwned(owner, p, n, a) && AllOwned(owner, q, m, b) && a != b
    ensures n == 0 || m == 0 || p + n <= q || q + m <= p
  {
    var x := if p < q then q else p;
    assert p <= x < p + n ==> x in owner && owner[x] == a;
    assert q <= x < q + m ==> x in owner && owner[x] == b;
  }

  lemma HostApart(owner: map<nat, Owner>, buffers: map<nat, Buffer>, address: nat, n: nat, q: nat, m: nat, b: Owner)
    requires HostRange(owner, buffers, address, n) && AllOwned(owner, q, m, b) && !b.Client? && !b.Common?
    ensures n == 0 || m == 0 || address + n <= 4096 * q || 4096 * (q + m) <= address
  {
    var x := if address / 4096 < q then q else address / 4096;
    assert 4096 * x < address + n ==> x in owner && owner[x] != b;
    assert q <= x < q + m ==> x in owner && owner[x] == b;
  }

  /** What a mapping in effect relies on. */
  ghost predicate MappingOk(owner: map<nat, Owner>, buffers: map<nat, Buffer>, m: MapInfo) {
    if m.operation.IsCommon() then
      && m.plainPage > 0 && m.crypted == m.Plain()
      && m.plainPage - 1 in buffers && m.Pages() <= buffers[m.plainPage - 1].pages
    else
      && !m.operation.OtherOperation? && m.Pages() > 0
      && AllOwned(owner, m.plainPage, m.Pages(), Bounce(m.id))
      && HostRange(owner, buffers, m.crypted, m.bytes)
  }

  ghost predicate BufferOk(owner: map<nat, Owner>, buffers: map<nat, Buffer>, h: nat)
    requires h in buffers
  {
    && buffers[h].pages > 0
    && AllOwned(owner, h, 1 + buffers[h].pages, Common(buffers[h].stash))
    && AllOwned(owner, buffers[h].stash, buffers[h].pages, Stash(buffers[h].stash))
  }

  /** The mapping is of the common buffer behind header h, or has its host bytes in it. */
  ghost predicate Uses(m: MapInfo, h: nat, pages: nat) {
    if m.operation.IsCommon() then m.plainPage == h + 1
    else exists p :: m.crypted / 4096 <= p && 4096 * p < m.crypted + m.bytes && Between(p, h, 1 + pages)
  }

  /** Every mapping is sound, and together they are the reason for every cleared mask. */
  ghost predicate MapsOk(owner: map<nat, Owner>, buffers: map<nat, Buffer>, pool: set<nat>, cleared: set<nat>,
                         ms: seq<MapInfo>)
  {
    && cleared == PlainSet(ms) && Disjoint(ms)
    && (forall i :: 0 <= i < |ms| ==> ms[i].id in pool && MappingOk(owner, buffers, ms[i]))
    && (forall i, j :: 0 <= i < j < |ms| ==> ms[i].id != ms[j].id)
  }

  ghost predicate BuffersOk(owner: map<nat, Owner>, buffers: map<nat, Buffer>) {
    && (forall h :: h in buffers ==> BufferOk(owner, buffers, h))
    && (forall x, y :: x in buffers && y in buffers && x != y ==> buffers[x].stash != buffers[y].stash)
  }

  ghost predicate Extends(owner: map<nat, Owner>, owner': map<nat, Owner>) {
    forall p :: p in owner ==> p in owner' && owner'[p] == owner[p]
  }

  lemma MapsOkParts(owner: map<nat, Owner>, buffers: map<nat, Buffer>, pool: set<nat>, cleared: set<nat>,
                    ms: seq<MapInfo>)
    requires MapsOk(owner, buffers, pool, cleared, ms)
    ensures cleared == PlainSet(ms) && forall i :: 0 <= i < |ms| ==> MappingOk(owner, buffers, ms[i])
  {
  }

  lemma BufferAt(owner: map<nat, Owner>, buffers: map<nat, Buffer>, h: nat)
    requires BuffersOk(owner, buffers) && h in buffers
    ensures BufferOk(owner, buffers, h)
  {
  }

  /** The buffer that a mapping in place is of. */
  lemma BufferOf(owner: map<nat, Owner>, buffers: map<nat, Buffer>, m: MapInfo)
    requires BuffersOk(owner, buffers) && MappingOk(owner, buffers, m)
    ensures m.operation.IsCommon() ==>
              m.plainPage > 0 && m.plainPage - 1 in buffers && BufferOk(owner, buffers, m.plainPage - 1)
  {
  }

  lemma MapsOkExtends(owner: map<nat, Owner>, owner': map<nat, Owner>, buffers: map<nat, Buffer>,
                      pool: set<nat>, cleared: set<nat>, ms: seq<MapInfo>)
    requires Extends(owner, owner') && MapsOk(owner, buffers, pool, cleared, ms) && BuffersOk(owner, buffers)
    ensures MapsOk(owner', buffers, pool, cleared, ms) && BuffersOk(owner', buffers)
  {
    forall h | h in buffers
      ensures BufferOk(owner', buffers, h)
    {
      assert BufferOk(owner, buffers, h);
    }
    forall i | 0 <= i < |ms|
      ensures MappingOk(owner', buffers, ms[i])
    {
      assert MappingOk(owner, buffers, ms[i]);
    }
  }

  /** Every plaintext page is in use: for a bounce buffer, or in a common buffer. */
  lemma PlainPagesOwned(owner: map<nat, Owner>, buffers: map<nat, Buffer>, m: MapInfo, p: nat)
    requires MappingOk(owner, buffers, m) && BuffersOk(owner, buffers) && p in m.PlainPages()
    ensures p in owner
    ensures if m.operation.IsCommon() then owner[p] == Common(buffers[m.plainPage - 1].stash)
            else owner[p] == Bounce(m.id)
  {
    if m.operation.IsCommon() {
      assert BufferOk(owner, buffers, m.plainPage - 1);
    }
  }

  lemma MapsOkAdd(owner: map<nat, Owner>, buffers: map<nat, Buffer>, pool: set<nat>, cleared: set<nat>,
                  ms: seq<MapInfo>, m: MapInfo)
    requires MapsOk(owner, buffers, pool, cleared, ms)
    requires m.id !in pool && MappingOk(owner, buffers, m) && m.PlainPages() !! cleared
    ensures MapsOk(owner, buffers, pool + {m.id}, cleared + m.PlainPages(), [m] + ms)
  {
    var all := [m] + ms;
    assert all[1..] == ms;
    forall j | 0 <= j < |ms|
      ensures m.PlainPages() !! ms[j].PlainPages()
    {
      forall p | p in ms[j].PlainPages()
        ensures p in cleared
      {
        assert ms[j] in ms;
        InPlainSet(ms, p);
      }
    }
  }

  lemma MapsOkRemove(owner: map<nat, Owner>, buffers: map<nat, Buffer>, pool: set<nat>, cleared: set<nat>,
                     ms: seq<MapInfo>, i: nat)
    requires MapsOk(owner, buffers, pool, cleared, ms) && i < |ms|
    ensures MapsOk(owner, buffers, pool, cleared - ms[i].PlainPages(), Without(ms, i))
    ensures MapsOk(owner, buffers, pool - {ms[i].id}, cleared - ms[i].PlainPages(), Without(ms, i))
    ensures forall m :: m in Without(ms, i) ==> m.id != ms[i].id
  {
    PlainSetWithout(ms, i);
    var rest := Without(ms, i);
    forall a | 0 <= a < |rest|
      ensures rest[a] == ms[if a < i then a else a + 1]
    {
    }
  }

  /** Releasing the bounce pages of a mapping that is gone disturbs no other use of memory. */
  lemma ReleaseBounce(owner: map<nat, Owner>, owner': map<nat, Owner>, buffers: map<nat, Buffer>,
                      pool: set<nat>, cleared: set<nat>, ms: seq<MapInfo>, id: nat)
    requires MapsOk(owner, buffers, pool, cleared, ms) && BuffersOk(owner, buffers)
    requires forall m :: m in ms ==> m.id != id
    requires forall p :: p in owner && owner[p] != Bounce(id) ==> p in owner' && owner'[p] == owner[p]
    ensures MapsOk(owner', buffers, pool, cleared, ms) && BuffersOk(owner', buffers)
  {
    forall h | h in buffers
      ensures BufferOk(owner', buffers, h)
    {
      assert BufferOk(owner, buffers, h);
    }
    forall i | 0 <= i < |ms|
      ensures MappingOk(owner', buffers, ms[i])
    {
      assert MappingOk(owner, buffers, ms[i]) && ms[i] in ms;
    }
  }

  // ----- What a mapping does to memory -----

  /** Map shows the device exactly the host's bytes, and writes only the plaintext pages and the stash. */
  ghost predicate Shown(m: MapInfo, stash: nat, before: seq<byte>, after: seq<byte>) {
    && m.Plain() + m.bytes <= |after| && m.crypted + m.bytes <= |after|
    && Framed(before, after, m.Plain(), 4096 * m.Pages(), 4096 * stash, if m.operation.IsCommon() then m.bytes else 0)
    && (!m.operation.IsWrite() ==> after[m.Plain()..m.Plain() + m.bytes] == before[m.crypted..m.crypted + m.bytes])
  }

  /**
   Unmap leaves exactly the device's bytes at the host address, except after a
   read; a bounce buffer ends zeroed; besides these only the stash is written.
   */
  ghost predicate Returned(m: MapInfo, stash: nat, before: seq<byte>, after: seq<byte>) {
    && m.Plain() + m.bytes <= |after| && m.crypted + m.bytes <= |after|
    && (if m.operation.IsCommon() then Framed(before, after, m.Plain(), 4096 * m.Pages(), 4096 * stash, m.bytes)
        else Framed(before, after, m.Plain(), 4096 * m.Pages(), m.crypted,
                    if m.operation.IsWrite() then m.bytes else 0))
    && (!m.operation.IsRead() ==> after[m.crypted..m.crypted + m.bytes] == before[m.Plain()..m.Plain() + m.bytes])
    && (!m.operation.IsCommon() ==> IsZero(after, m.Plain(), 4096 * m.Pages()))
  }

  /** For a bounce buffer the stash is of no account. */
  lemma ShownAnyway(m: MapInfo, stash: nat, before: seq<byte>, after: seq<byte>)
    requires Shown(m, 0, before, after) && !m.operation.IsCommon()
    ensures Shown(m, stash, before, after)
  {
  }

  lemma ReturnedAnyway(m: MapInfo, stash: nat, before: seq<byte>, after: seq<byte>)
    requires Returned(m, 0, before, after) && !m.operation.IsCommon()
    ensures Returned(m, stash, before, after)
  {
  }

  /** The mapping's pages were free and are now allocated. */
  ghost predicate Taken(m: MapInfo, before: map<nat, Owner>, after: map<nat, Owner>) {
    Extends(before, after) && m.PlainPages() !! before.Keys && after.Keys == before.Keys + m.PlainPages()
  }

  /** The allocations are those of before, and the header, the pages behind it and the stash, which were all free. */
  ghost predicate Grown(before: map<nat, Owner>, after: map<nat, Owner>, header: nat, pages: nat, stash: nat) {
    && Extends(before, after)
    && (forall p :: Between(p, header, 1 + pages) || Between(p, stash, pages) ==> p !in before)
    && (forall p :: p in after <==> p in before || Between(p, header, 1 + pages) || Between(p, stash, pages))
  }

  // ----- Taking all mappings down -----

  /** What is left of a mapping: a common buffer with its bytes, or a zeroed bounce buffer. */
  ghost predicate WoundUp(m: MapInfo, before: seq<byte>, after: seq<byte>) {
    && m.Plain() + m.bytes <= |after| == |before|
    && if m.operation.IsCommon() then after[m.Plain()..m.Plain() + m.bytes] == before[m.Plain()..m.Plain() + m.bytes]
       else IsZero(after, m.Plain(), 4096 * m.Pages())
  }

  /**
   No write mapping has its host bytes in the pages of mapping i. For bounce buffers
   this is always so.
   */
  ghost predicate Aloof(ms: seq<MapInfo>, i: nat)
    requires i < |ms|
  {
    forall w <- ms :: AloofFrom(w, ms[i])
  }

  ghost predicate AloofFrom(w: MapInfo, m: MapInfo) {
    w.operation.IsWrite() && m.operation.IsCommon() ==> Apart(m.Plain(), 4096 * m.Pages(), w.crypted, w.bytes)
  }

  /** The first n mappings are wound up, the pages of the others are as they were, unless write mappings end in them. */
  ghost predicate Winding(owner: map<nat, Owner>, buffers: map<nat, Buffer>, ms: seq<MapInfo>, n: nat,
                          before: seq<byte>, after: seq<byte>)
  {
    && |after| == |before| && Disjoint(ms) && BuffersOk(owner, buffers)
    && (forall i :: 0 <= i < |ms| ==> MappingOk(owner, buffers, ms[i]) && PagesIn(ms[i], before))
    && (forall i :: 0 <= i < n && i < |ms| && Aloof(ms, i) ==> WoundUp(ms[i], before, after))
    && (forall i :: n <= i < |ms| && Aloof(ms, i) ==> SamePages(ms[i], before, after))
  }

  ghost predicate PagesIn(m: MapInfo, mem: seq<byte>) {
    m.Plain() + 4096 * m.Pages() <= |mem|
  }

  ghost predicate SamePages(m: MapInfo, before: seq<byte>, after: seq<byte>)
    requires PagesIn(m, before) && |after| == |before|
  {
    after[m.Plain()..m.Plain() + 4096 * m.Pages()] == before[m.Plain()..m.Plain() + 4096 * m.Pages()]
  }

  /** A mapping's plaintext pages are neither a client's nor a stash. */
  lemma PlainOwner(owner: map<nat, Owner>, buffers: map<nat, Buffer>, m: MapInfo) returns (o: Owner)
    requires MappingOk(owner, buffers, m) && BuffersOk(owner, buffers)
    ensures AllOwned(owner, m.plainPage, m.Pages(), o) && !o.Client? && !o.Stash?
  {
    if m.operation.IsCommon() {
      assert BufferOk(owner, buffers, m.plainPage - 1);
      o := Common(buffers[m.plainPage - 1].stash);
    } else {
      o := Bounce(m.id);
    }
  }

  lemma DisjointPages(p: nat, n: nat, q: nat, k: nat)
    requires PageRange(p, n) !! PageRange(q, k)
    ensures Apart(4096 * p, 4096 * n, 4096 * q, 4096 * k)
  {
    var x := if p < q then q else p;
    assert x in PageRange(p, n) <==> p <= x < p + n;
    assert x in PageRange(q, k) <==> q <= x < q + k;
  }

  /** Taking down one mapping leaves the pages of any other, unless its host bytes are there. */
  lemma OtherPages(owner: map<nat, Owner>, buffers: map<nat, Buffer>, m: MapInfo, x: MapInfo, stash: nat,
                   before: seq<byte>, after: seq<byte>)
    requires MappingOk(owner, buffers, m) && MappingOk(owner, buffers, x) && BuffersOk(owner, buffers)
    requires m.PlainPages() !! x.PlainPages() && PagesIn(x, before) && AloofFrom(m, x)
    requires Returned(m, stash, before, after)
    requires m.operation.IsCommon() ==> stash == buffers[m.plainPage - 1].stash
    ensures SamePages(x, before, after)
  {
    hide HostRange, AllOwned;
    var at, n := x.Plain(), 4096 * x.Pages();
    var o := PlainOwner(owner, buffers, x);
    DisjointPages(x.plainPage, x.Pages(), m.plainPage, m.Pages());
    if m.operation.IsCommon() {
      assert BufferOk(owner, buffers, m.plainPage - 1);
      OwnedApart(owner, x.plainPage, x.Pages(), o, stash, buffers[m.plainPage - 1].pages, Stash(stash));
      FramedRange(before, after, m.Plain(), 4096 * m.Pages(), 4096 * stash, m.bytes, at, n);
    } else {
      if !x.operation.IsCommon() {
        HostApart(owner, buffers, m.crypted, m.bytes, x.plainPage, x.Pages(), Bounce(x.id));
      }
      FramedRange(before, after, m.Plain(), 4096 * m.Pages(), m.crypted,
                  if m.operation.IsWrite() then m.bytes else 0, at, n);
    }
  }

  lemma StartWinding(owner: map<nat, Owner>, buffers: map<nat, Buffer>, ms: seq<MapInfo>, mem: seq<byte>)
    requires Disjoint(ms) && BuffersOk(owner, buffers) && (forall p :: p in owner ==> 4096 * (p + 1) <= |mem|)
    requires forall i :: 0 <= i < |ms| ==> MappingOk(owner, buffers, ms[i])
    ensures Winding(owner, buffers, ms, 0, mem, mem)
  {
    forall i | 0 <= i < |ms|
      ensures PagesIn(ms[i], mem)
    {
      var o := PlainOwner(owner, buffers, ms[i]);
      assert ms[i].Pages() > 0 ==> ms[i].plainPage + ms[i].Pages() - 1 in owner;
      if ms[i].Pages() == 0 {
        assert BufferOk(owner, buffers, ms[i].plainPage - 1);
        assert ms[i].plainPage - 1 in owner;
      }
    }
  }

  /** What was wound up stays so, and what is to come stays as it is. */
  lemma WindOne(owner: map<nat, Owner>, buffers: map<nat, Buffer>, ms: seq<MapInfo>, n: nat,
                mem0: seq<byte>, before: seq<byte>, after: seq<byte>, stash: nat)
    requires Winding(owner, buffers, ms, n, mem0, before) && n < |ms| && Returned(ms[n], stash, before, after)
    requires ms[n].operation.IsCommon() ==> stash == buffers[ms[n].plainPage - 1].stash
    ensures Winding(owner, buffers, ms, n + 1, mem0, after)
  {
    hide MappingOk, BuffersOk, Returned, WoundUp, Aloof, AloofFrom;
    ReturnedSize(ms[n], stash, before, after);
    InPlace(owner, buffers, ms[n]);
    forall i | 0 <= i < |ms| && i != n && Aloof(ms, i)
      ensures SamePages(ms[i], before, after)
    {
      AloofFromEach(ms, i, n);
      assert ms[n].PlainPages() !! ms[i].PlainPages();
      OtherPages(owner, buffers, ms[n], ms[i], stash, before, after);
    }
    forall i | 0 <= i < n && Aloof(ms, i)
      ensures WoundUp(ms[i], mem0, after)
    {
      StillWoundUp(ms[i], mem0, before, after);
    }
    if Aloof(ms, n) {
      NowWoundUp(ms[n], mem0, before, after, stash);
    }
  }

  lemma ReturnedSize(m: MapInfo, stash: nat, before: seq<byte>, after: seq<byte>)
    requires Returned(m, stash, before, after)
    ensures |after| == |before|
  {
  }

  lemma InPlace(owner: map<nat, Owner>, buffers: map<nat, Buffer>, m: MapInfo)
    requires MappingOk(owner, buffers, m)
    ensures m.operation.IsCommon() ==> m.crypted == m.Plain()
  {
  }

  lemma AloofFromEach(ms: seq<MapInfo>, i: nat, n: nat)
    requires i < |ms| && n < |ms| && Aloof(ms, i)
    ensures AloofFrom(ms[n], ms[i])
  {
    assert ms[n] in ms;
  }

  lemma StillWoundUp(m: MapInfo, mem0: seq<byte>, before: seq<byte>, after: seq<byte>)
    requires WoundUp(m, mem0, before) && PagesIn(m, before) && |after| == |before| && SamePages(m, before, after)
    ensures WoundUp(m, mem0, after)
  {
    var lo, k := m.Plain(), 4096 * m.Pages();
    forall a | lo <= a < lo + k
      ensures after[a] == before[a]
    {
      assert after[lo..lo + k][a - lo] == before[lo..lo + k][a - lo];
    }
    assert after[lo..lo + m.bytes] == before[lo..lo + m.bytes];
  }

  lemma NowWoundUp(m: MapInfo, mem0: seq<byte>, before: seq<byte>, after: seq<byte>, stash: nat)
    requires PagesIn(m, mem0) && |before| == |mem0| && SamePages(m, mem0, before) && Returned(m, stash, before, after)
    requires m.operation.IsCommon() ==> m.crypted == m.Plain()
    ensures WoundUp(m, mem0, after)
  {
    var lo, k := m.Plain(), 4096 * m.Pages();
    assert before[lo..lo + k][..m.bytes] == before[lo..lo + m.bytes];
    assert mem0[lo..lo + k][..m.bytes] == mem0[lo..lo + m.bytes];
  }

  class IoMmu {
    const pageCount: nat
    var mem: seq<byte>               // as the CPU sees it through the masks in force
    var cleared: set<nat>            // the pages whose encryption mask is clear
    var owner: map<nat, Owner>       // the allocated pages
    var buffers: map<nat, Buffer>    // COMMON_BUFFER_HEADER: by header page
    var pool: set<nat>               // the MAP_INFO objects in pool memory
    var mapInfos: seq<MapInfo>       // mMapInfos

    /** At first there are no mappings and every page is encrypted; some pages belong to clients. */
    constructor (pageCount: nat, mem: seq<byte>, clients: set<nat>)
      requires |mem| == 4096 * pageCount && forall p :: p in clients ==> p < pageCount
      ensures Valid() && this.pageCount == pageCount && this.mem == mem && mapInfos == [] && cleared == {}
      ensures owner.Keys == clients && forall p :: p in owner ==> owner[p] == Client
    {
      this.pageCount, this.mem, cleared, mapInfos := pageCount, mem, {}, [];
      owner := map p | p in clients :: Client;
      buffers, pool := map[], {};
    }

    ghost predicate Valid()
      reads this
    {
      && |mem| == 4096 * pageCount
      && (forall p :: p in owner ==> p < pageCount)
      && MapsOk(owner, buffers, pool, cleared, mapInfos)
      && BuffersOk(owner, buffers)
    }

    // ----- Services -----

    /** The service picks the place first; one that is not free stands for a failure to find any. */
    method AllocatePages(first: nat, count: nat, limit: nat, o: Owner) returns (ok: bool)
      modifies this`owner
      ensures ok <==> FreeRun(old(owner), pageCount, first, count, limit)
      ensures ok ==> AllOwned(owner, first, count, o)
      ensures Extends(old(owner), owner)
      ensures forall p :: p in owner ==> p in old(owner) || (ok && first <= p < first + count)
      ensures !ok ==> owner == old(owner)
    {
      ok := FreeRun(owner, pageCount, first, count, limit);
      if ok {
        owner := Labelled(owner, first, count, o);
      }
    }

    method FreePages(first: nat, count: nat)
      requires forall p :: first <= p < first + count ==> p in owner
      modifies this`owner
      ensures forall p :: p in owner <==> p in old(owner) && !(first <= p < first + count)
      ensures forall p :: p in owner ==> owner[p] == old(owner)[p]
    {
      owner := map p | p in owner && !(first <= p < first + count) :: owner[p];
    }

    /** MemEncryptSevClearPageEncMask and MemEncryptSevSetPageEncMask: the contents are lost. */
    method ChangeMask(first: nat, count: nat, encrypt: bool)
      requires |mem| == 4096 * pageCount && (count == 0 || first + count <= pageCount)
      modifies this`mem, this`cleared
      ensures Framed(old(mem), mem, 4096 * first, 4096 * count, 0, 0)
      ensures cleared ==
              if encrypt then old(cleared) - PageRange(first, count) else old(cleared) + PageRange(first, count)
    {
      var junk: seq<byte> := *;
      if |junk| == |mem| && count > 0 {
        mem := mem[..4096 * first] + junk[4096 * first..4096 * (first + count)] + mem[4096 * (first + count)..];
      }
      cleared := if encrypt then cleared - PageRange(first, count) else cleared + PageRange(first, count);
    }

    method CopyMem(to: nat, from: nat, n: nat)
      requires to + n <= |mem| && from + n <= |mem|
      modifies this`mem
      ensures Copies(old(mem), mem, to, from, n)
    {
      mem := mem[..to] + mem[from..from + n] + mem[to + n..];
    }

    method ZeroMem(to: nat, n: nat)
      requires to + n <= |mem|
      modifies this`mem
      ensures Framed(old(mem), mem, to, n, 0, 0) && IsZero(mem, to, n)
    {
      mem := mem[..to] + seq(n, i => 0) + mem[to + n..];
    }

    // ----- Map -----

    /** The bounce buffer of a read shows the device exactly the host's bytes. */
    method MapBounce(m: MapInfo)
      requires |mem| == 4096 * pageCount && (forall p :: p in owner ==> p < pageCount)
      requires !m.operation.IsCommon() && MappingOk(owner, buffers, m)
      modifies this`mem, this`cleared
      ensures cleared == old(cleared) + m.PlainPages() && Shown(m, 0, old(mem), mem)
    {
      InMemory(m);
      HostApart(owner, buffers, m.crypted, m.bytes, m.plainPage, m.Pages(), Bounce(m.id));
      ChangeMask(m.plainPage, m.Pages(), false);
      FramedRange(old(mem), mem, m.Plain(), 4096 * m.Pages(), 0, 0, m.crypted, m.bytes);
      if m.operation.IsRead() {
        CopyMem(m.Plain(), m.crypted, m.bytes);
      }
    }

    lemma InMemory(m: MapInfo)
      requires forall p :: p in owner ==> p < pageCount
      requires !m.operation.IsCommon() && MappingOk(owner, buffers, m)
      ensures m.plainPage + m.Pages() <= pageCount && m.crypted + m.bytes <= 4096 * pageCount
    {
      assert m.plainPage + m.Pages() - 1 in owner;
      var last := (m.crypted + m.bytes - 1) / 4096;
      assert last in owner;
    }

    /** The mask of a common buffer changes in place; its stash carries the data over the change. */
    method ChangeInPlace(m: MapInfo, encrypt: bool)
      requires |mem| == 4096 * pageCount && (forall p :: p in owner ==> p < pageCount)
      requires m.operation.IsCommon() && MappingOk(owner, buffers, m) && BufferOk(owner, buffers, m.plainPage - 1)
      modifies this`mem, this`cleared
      ensures cleared == if encrypt then old(cleared) - m.PlainPages() else old(cleared) + m.PlainPages()
      ensures Framed(old(mem), mem, m.Plain(), 4096 * m.Pages(), 4096 * StashOf(m), m.bytes)
      ensures m.Plain() + m.bytes <= |mem|
      ensures mem[m.Plain()..m.Plain() + m.bytes] == old(mem)[m.Plain()..m.Plain() + m.bytes]
    {
      var stash := 4096 * buffers[m.plainPage - 1].stash;
      StashApart(m);
      CopyMem(stash, m.Plain(), m.bytes);
      ghost var stashed := mem;
      ChangeMask(m.plainPage, m.Pages(), encrypt);
      ghost var changed := mem;
      CopyMem(m.Plain(), stash, m.bytes);
      StashCarries(old(mem), stashed, changed, mem, m.Plain(), 4096 * m.Pages(), stash, m.bytes);
    }

    lemma StashApart(m: MapInfo)
      requires forall p :: p in owner ==> p < pageCount
      requires m.operation.IsCommon() && MappingOk(owner, buffers, m) && BufferOk(owner, buffers, m.plainPage - 1)
      ensures m.plainPage + m.Pages() <= pageCount && m.bytes <= 4096 * m.Pages()
      ensures m.Plain() + 4096 * m.Pages() <= 4096 * pageCount
      ensures 4096 * buffers[m.plainPage - 1].stash + m.bytes <= 4096 * pageCount
      ensures Apart(m.Plain(), 4096 * m.Pages(), 4096 * buffers[m.plainPage - 1].stash, m.bytes)
    {
      var h := m.plainPage - 1;
      var b := buffers[h];
      OwnedApart(owner, h, 1 + b.pages, Common(b.stash), b.stash, b.pages, Stash(b.stash));
      assert h + b.pages in owner && b.stash + (b.pages - 1) in owner;
    }

    /**
     What a caller of Map must have: memory of its own, or for a common buffer one from
     AllocateBuffer that is not mapped yet.
     */
    ghost predicate MayMap(operation: Operation, host: nat, bytes: nat)
      reads this
    {
      if operation.IsCommon() then
        && host % 4096 == 0 && host / 4096 - 1 in buffers
        && SizeToPages(bytes) <= buffers[host / 4096 - 1].pages
        && PageRange(host / 4096, SizeToPages(bytes)) !! cleared
      else
        HostRange(owner, buffers, host, bytes)
    }

    /** The mapping is in effect: it heads the list, and its pages are plaintext. */
    ghost predicate Added(mapping: MapInfo, operation: Operation, host: nat, bytes: nat,
                          mapInfos0: seq<MapInfo>, pool0: set<nat>)
      reads this
    {
      && mapInfos == [mapping] + mapInfos0 && mapping.id !in pool0 && pool == pool0 + {mapping.id}
      && mapping.operation == operation && mapping.bytes == bytes && mapping.crypted == host
    }

    /** A common buffer is decrypted in place. */
    method MapCommon(id: nat, operation: Operation, host: nat, bytes: nat) returns (mapping: MapInfo)
      requires Valid() && operation.IsCommon() && MayMap(operation, host, bytes) && id !in pool
      modifies this`mem, this`cleared, this`pool, this`mapInfos
      ensures Valid() && Added(mapping, operation, host, bytes, old(mapInfos), old(pool))
      ensures Shown(mapping, StashOf(mapping), old(mem), mem) && mapping.Plain() == host
    {
      mapping := MapInfo(id, operation, bytes, host, host / 4096);
      assert BufferOk(owner, buffers, mapping.plainPage - 1);
      MapsOkAdd(owner, buffers, pool, cleared, mapInfos, mapping);
      ChangeInPlace(mapping, false);
      mapInfos := [mapping] + mapInfos;
      pool := pool + {id};
    }

    /** Fresh pages become the bounce buffer. */
    method MapPages(id: nat, operation: Operation, host: nat, bytes: nat, place: nat)
      returns (ok: bool, mapping: MapInfo)
      requires Valid() && !operation.IsCommon() && !operation.OtherOperation? && MayMap(operation, host, bytes)
               && id !in pool
      modifies this`mem, this`cleared, this`owner, this`pool, this`mapInfos
      ensures Valid()
      ensures ok <==> FreeRun(old(owner), pageCount, place, SizeToPages(bytes),
                              if operation.Read? || operation.Write? then 0xFFFF_FFFF else 0xFFFF_FFFF_FFFF_FFFF)
      ensures !ok ==>
                mem == old(mem) && cleared == old(cleared) && owner == old(owner) && mapInfos == old(mapInfos)
                && pool == old(pool)
      ensures ok ==>
                && Added(mapping, operation, host, bytes, old(mapInfos), old(pool))
                && Shown(mapping, 0, old(mem), mem) && Taken(mapping, old(owner), owner)
                && (operation.Read? || operation.Write? ==> mapping.Plain() + 4096 * mapping.Pages() <= BASE_4GB)
    {
      var limit := if operation.Read? || operation.Write? then BASE_4GB - 1 else MAX_UINTN;
      ok := AllocatePages(place, SizeToPages(bytes), limit, Bounce(id));
      mapping := MapInfo(id, operation, bytes, host, place);
      if !ok {
        return;
      }
      AddBounce(old(owner), mapping);
      MapBounce(mapping);
      mapInfos := [mapping] + mapInfos;
      pool := pool + {id};
    }

    /**
     IoMmuMap. A bounce buffer is memory that was free before. A host
     address of zero stands for NULL. The allocators pick the MAP_INFO id, where one in
     use stands for none, and the place of the bounce buffer.
     */
    method Map(operation: Operation, host: nat, bytes: nat, id: nat, place: nat)
      returns (status: Status, mapping: MapInfo)
      requires Valid()
      requires host != 0 && !operation.OtherOperation? ==> MayMap(operation, host, bytes)
      modifies this`mem, this`cleared, this`owner, this`pool, this`mapInfos
      ensures Valid()
      ensures status == InvalidParameter <==> host == 0 || (id !in old(pool) && operation.OtherOperation?)
      ensures status == Unsupported <==>
                host != 0 && id !in old(pool) && operation.CommonBuffer?
                && host + 4096 * ((bytes + 4095) / 4096) > 0x1_0000_0000
      ensures status == OutOfResources <==>
                host != 0
                && (id in old(pool)
                    || ((operation.Read? || operation.Write?)
                        && !FreeRun(old(owner), pageCount, place, (bytes + 4095) / 4096, 0xFFFF_FFFF))
                    || ((operation.Read64? || operation.Write64?)
                        && !FreeRun(old(owner), pageCount, place, (bytes + 4095) / 4096, 0xFFFF_FFFF_FFFF_FFFF)))
      ensures status != Success ==>
                mem == old(mem) && cleared == old(cleared) && owner == old(owner) && mapInfos == old(mapInfos)
                && pool == old(pool)
      ensures status == Success ==>
                && Added(mapping, operation, host, bytes, old(mapInfos), old(pool))
                && Shown(mapping, StashOf(mapping), old(mem), mem)
                && (if operation.IsCommon() then mapping.Plain() == host && owner == old(owner)
                    else Taken(mapping, old(owner), owner))
                && (operation.Read? || operation.Write? || operation.CommonBuffer? ==>
                      mapping.Plain() + 4096 * ((bytes + 4095) / 4096) <= 0x1_0000_0000)
    {
      mapping := MapInfo(0, operation, bytes, host, 0);
      if host == 0 {
        return InvalidParameter, mapping;
      }
      if id in pool {
        return OutOfResources, mapping;
      }
      if operation.OtherOperation? {
        return InvalidParameter, mapping;
      }
      if operation.IsCommon() {
        if operation.CommonBuffer? && (host > BASE_4GB || 4096 * SizeToPages(bytes) > BASE_4GB - host) {
          return Unsupported, mapping;
        }
        mapping := MapCommon(id, operation, host, bytes);
      } else {
        var ok;
        ok, mapping := MapPages(id, operation, host, bytes, place);
        if !ok {
          return OutOfResources, mapping;
        }
        ShownAnyway(mapping, StashOf(mapping), old(mem), mem);
      }
      status := Success;
    }

    function StashOf(m: MapInfo): nat
      reads this
    {
      if m.plainPage > 0 && m.plainPage - 1 in buffers then buffers[m.plainPage - 1].stash else 0
    }

    /** A bounce buffer of fresh pages joins the mappings. */
    lemma AddBounce(before: map<nat, Owner>, m: MapInfo)
      requires MapsOk(before, buffers, pool, cleared, mapInfos) && BuffersOk(before, buffers)
      requires Extends(before, owner) && m.id !in pool && !m.operation.IsCommon() && !m.operation.OtherOperation?
               && m.Pages() > 0
      requires AllOwned(owner, m.plainPage, m.Pages(), Bounce(m.id)) && HostRange(before, buffers, m.crypted, m.bytes)
      requires forall p :: m.plainPage <= p < m.plainPage + m.Pages() ==> p !in before
      ensures MapsOk(owner, buffers, pool + {m.id}, cleared + m.PlainPages(), [m] + mapInfos)
      ensures BuffersOk(owner, buffers) && MappingOk(owner, buffers, m)
    {
      MapsOkExtends(before, owner, buffers, pool, cleared, mapInfos);
      forall p | p in cleared
        ensures p in before
      {
        InPlainSet(mapInfos, p);
        var x :| x in mapInfos && p in x.PlainPages();
        PlainPagesOwned(before, buffers, x, p);
      }
      MapsOkAdd(owner, buffers, pool, cleared, mapInfos, m);
    }

    // ----- Unmap -----

    /** After a write the host has exactly the device's bytes; the bounce buffer ends zeroed. */
    method UnmapBounce(m: MapInfo)
      requires |mem| == 4096 * pageCount && (forall p :: p in owner ==> p < pageCount)
      requires !m.operation.IsCommon() && MappingOk(owner, buffers, m)
      modifies this`mem, this`cleared
      ensures cleared == old(cleared) - m.PlainPages() && Returned(m, 0, old(mem), mem)
    {
      InMemory(m);
      HostApart(owner, buffers, m.crypted, m.bytes, m.plainPage, m.Pages(), Bounce(m.id));
      if m.operation.IsWrite() {
        CopyMem(m.crypted, m.Plain(), m.bytes);
      }
      ghost var copied := mem;
      ChangeMask(m.plainPage, m.Pages(), true);
      ZeroMem(m.Plain(), 4096 * m.Pages());
      FramedRange(copied, mem, m.Plain(), 4096 * m.Pages(), 0, 0, m.crypted, m.bytes);
    }

    /** A common buffer is encrypted in place. */
    method UnmapCommon(m: MapInfo)
      requires |mem| == 4096 * pageCount && (forall p :: p in owner ==> p < pageCount)
      requires m.operation.IsCommon() && MappingOk(owner, buffers, m) && BufferOk(owner, buffers, m.plainPage - 1)
      modifies this`mem, this`cleared
      ensures cleared == old(cleared) - m.PlainPages() && Returned(m, StashOf(m), old(mem), mem)
    {
      ChangeInPlace(m, true);
    }

    /**
     IoMmuUnmapWorker, for the mapping at index i of the list. With the
     memory map locked nothing is freed.
     */
    method UnmapWorker(i: nat, memoryMapLocked: bool)
      requires Valid() && i < |mapInfos|
      modifies this`mem, this`cleared, this`owner, this`pool, this`mapInfos
      ensures Valid()
      ensures mapInfos == Without(old(mapInfos), i)
      ensures cleared == old(cleared) - old(mapInfos)[i].PlainPages()
      ensures Returned(old(mapInfos)[i], StashOf(old(mapInfos)[i]), old(mem), mem)
      ensures memoryMapLocked ==> owner == old(owner) && pool == old(pool)
      ensures !memoryMapLocked ==> pool == old(pool) - {old(mapInfos)[i].id}
      ensures !memoryMapLocked ==>
                forall p :: p in owner <==>
                            p in old(owner) && (old(mapInfos)[i].operation.IsCommon()
                                                || !Between(p, old(mapInfos)[i].plainPage, old(mapInfos)[i].Pages()))
    {
      hide MapsOk, BuffersOk, BufferOk, HostRange, Returned, Without;
      var m := mapInfos[i];
      MapsOkParts(owner, buffers, pool, cleared, mapInfos);
      BufferOf(owner, buffers, m);
      MapsOkRemove(owner, buffers, pool, cleared, mapInfos, i);
      if m.operation.IsCommon() {
        UnmapCommon(m);
      } else {
        UnmapBounce(m);
        ReturnedAnyway(m, StashOf(m), old(mem), mem);
        if !memoryMapLocked {
          FreePages(m.plainPage, m.Pages());
          ReleaseBounce(old(owner), owner, buffers, pool - {m.id}, cleared, Without(mapInfos, i), m.id);
        }
      }
      ReturnedSize(m, StashOf(m), old(mem), mem);
      mapInfos := Without(mapInfos, i);
      if !memoryMapLocked {
        pool := pool - {m.id};
      }
    }

    /**
     AmdSevUnmapAllMappings, at ExitBootServices: afterwards no mapping is
     left, every page is encrypted and nothing has been freed; every bounce buffer is
     zero, and every common buffer has kept its bytes unless a write mapping was to
     end in it.
     */
    method UnmapAllMappings()
      requires Valid()
      modifies this`mem, this`cleared, this`owner, this`pool, this`mapInfos
      ensures Valid() && mapInfos == [] && cleared == {}
      ensures owner == old(owner) && pool == old(pool) && |mem| == |old(mem)|
      ensures forall i :: 0 <= i < |old(mapInfos)| && Aloof(old(mapInfos), i) ==>
                WoundUp(old(mapInfos)[i], old(mem), mem)
    {
      hide Returned, WoundUp, SamePages, HostRange, BuffersOk, Aloof, Disjoint;
      ghost var n, ms := 0, mapInfos;
      StartWinding(owner, buffers, ms, mem);
      while mapInfos != []
        invariant Valid() && owner == old(owner) && pool == old(pool)
        invariant n <= |ms| && mapInfos == ms[n..] && Winding(owner, buffers, ms, n, old(mem), mem)
        decreases |mapInfos|
      {
        ghost var before := mem;
        assert ms[n..][0] == ms[n] && Without(ms[n..], 0) == ms[n + 1..];
        UnmapWorker(0, true);
        WindOne(owner, buffers, ms, n, old(mem), before, mem, StashOf(ms[n]));
        n := n + 1;
      }
    }

    // ----- Buffers -----

    /**
     IoMmuAllocateBuffer: a header page and the common pages behind it, and a stash
     of its own, at the places that the allocator picks.
     */
    method AllocateBuffer(pages: nat, knownAttributes: bool, validArguments: bool, dualAddressCycle: bool,
                          stash: nat, header: nat)
      returns (status: Status, host: nat)
      requires Valid()
      modifies this`owner, this`buffers
      ensures Valid() && mapInfos == old(mapInfos) && cleared == old(cleared)
      ensures status == Unsupported <==> !knownAttributes
      ensures status == InvalidParameter <==> knownAttributes && !validArguments
      ensures status == Success <==>
                && knownAttributes && validArguments && pages < 0xFFFF_FFFF_FFFF_FFFF
                && FreeRun(old(owner), pageCount, stash, pages, 0xFFFF_FFFF_FFFF_FFFF)
                && FreeRun(old(owner), pageCount, header, pages + 1,
                           if dualAddressCycle then 0xFFFF_FFFF_FFFF_FFFF else 0xFFFF_FFFF)
                && (stash + pages <= header || header + pages + 1 <= stash)
      ensures status != Success ==> owner == old(owner) && buffers == old(buffers)
      ensures status == Success ==>
                && host == 4096 * (header + 1)
                && host % 4096 == 0 && host / 4096 - 1 !in old(buffers)
                && host / 4096 - 1 in buffers && buffers[host / 4096 - 1].pages == pages
                && buffers == old(buffers)[host / 4096 - 1 := buffers[host / 4096 - 1]]
                && PageRange(host / 4096, pages) !! cleared
                && (!dualAddressCycle ==> host + 4096 * pages <= BASE_4GB)
                && Grown(old(owner), owner, host / 4096 - 1, pages, buffers[host / 4096 - 1].stash)
    {
      hide MapsOk, BuffersOk;
      host := 0;
      if !knownAttributes {
        return Unsupported, host;
      }
      if !validArguments {
        return InvalidParameter, host;
      }
      if pages > MAX_UINTN - 1 {
        return OutOfResources, host;
      }
      var ok := AllocateBoth(pages, if dualAddressCycle then MAX_UINTN else BASE_4GB - 1, stash, header);
      if !ok {
        return OutOfResources, host;
      }
      NewBuffer(old(owner), header, pages, stash);
      buffers := buffers[header := Buffer(pages, stash)];
      PageAddress(header + 1);
      return Success, 4096 * (header + 1);
    }

    /** The stash, and then the header with the pages behind it; both or none. */
    method AllocateBoth(pages: nat, limit: nat, stash: nat, header: nat) returns (ok: bool)
      modifies this`owner
      ensures ok <==>
                && FreeRun(old(owner), pageCount, stash, pages, MAX_UINTN)
                && FreeRun(old(owner), pageCount, header, pages + 1, limit)
                && (stash + pages <= header || header + pages + 1 <= stash)
      ensures !ok ==> owner == old(owner)
      ensures ok ==> Extends(old(owner), owner) && forall p :: p in owner ==> p in old(owner) || p < pageCount
      ensures ok ==>
                && pages > 0 && 4096 * (header + 1 + pages) - 1 <= limit
                && AllOwned(owner, header, 1 + pages, Common(stash)) && AllOwned(owner, stash, pages, Stash(stash))
                && Grown(old(owner), owner, header, pages, stash)
    {
      ok := AllocatePages(stash, pages, MAX_UINTN, Stash(stash));
      if !ok {
        return;
      }
      FreeBeside(old(owner), owner, pageCount, stash, pages, header, pages + 1, limit);
      ok := AllocatePages(header, pages + 1, limit, Common(stash));
      if !ok {
        FreePages(stash, pages);
        SameOwners(old(owner), owner);
      }
    }

    lemma SameOwners(a: map<nat, Owner>, b: map<nat, Owner>)
      requires Extends(a, b) && forall p :: p in b ==> p in a
      ensures a == b
    {
    }

    lemma NewBuffer(before: map<nat, Owner>, h: nat, pages: nat, stash: nat)
      requires MapsOk(before, buffers, pool, cleared, mapInfos) && BuffersOk(before, buffers)
      requires pages > 0 && AllOwned(owner, h, 1 + pages, Common(stash)) && AllOwned(owner, stash, pages, Stash(stash))
      requires Grown(before, owner, h, pages, stash)
      ensures h !in buffers && PageRange(h + 1, pages) !! cleared
      ensures var buffers' := buffers[h := Buffer(pages, stash)];
              MapsOk(owner, buffers', pool, cleared, mapInfos) && BuffersOk(owner, buffers')
    {
      assert Between(h, h, 1 + pages);
      MapsOkExtends(before, owner, buffers, pool, cleared, mapInfos);
      var buffers' := buffers[h := Buffer(pages, stash)];
      forall x | x in buffers
        ensures x in before && buffers[x].stash != stash && BufferOk(owner, buffers', x)
      {
        assert BufferOk(before, buffers, x) && BufferOk(owner, buffers, x);
        assert buffers[x].stash in before && Between(stash, stash, pages);
      }
      forall i | 0 <= i < |mapInfos|
        ensures MappingOk(owner, buffers', mapInfos[i])
      {
        OldMapping(before, h, Buffer(pages, stash), mapInfos[i]);
      }
      forall p | p in cleared
        ensures p in before
      {
        InPlainSet(mapInfos, p);
        var x :| x in mapInfos && p in x.PlainPages();
        PlainPagesOwned(before, buffers, x, p);
      }
    }

    lemma OldMapping(before: map<nat, Owner>, h: nat, b: Buffer, m: MapInfo)
      requires MappingOk(before, buffers, m) && BuffersOk(before, buffers) && Extends(before, owner) && h !in before
      ensures MappingOk(owner, buffers[h := b], m)
    {
      if m.operation.IsCommon() {
        assert BufferOk(before, buffers, m.plainPage - 1) && m.plainPage - 1 in before;
      }
    }

    /** IoMmuFreeBuffer, for a buffer of the given size that is not mapped. */
    method FreeBuffer(pages: nat, host: nat) returns (status: Status)
      requires Valid()
      requires host >= 4096 && host % 4096 == 0
      requires host / 4096 - 1 in buffers ==>
                 buffers[host / 4096 - 1].pages == pages && PageRange(host / 4096, pages) !! cleared
                 && forall m :: m in mapInfos ==> !Uses(m, host / 4096 - 1, pages)
      modifies this`owner, this`buffers
      ensures Valid() && mapInfos == old(mapInfos) && cleared == old(cleared)
      ensures status == if host / 4096 - 1 in old(buffers) then Success else InvalidParameter
      ensures status == Success ==>
                && buffers == old(buffers) - {host / 4096 - 1}
                && forall p :: p in owner <==>
                               p in old(owner) && !Between(p, host / 4096 - 1, pages + 1)
                               && !Between(p, old(buffers)[host / 4096 - 1].stash, pages)
      ensures status != Success ==> owner == old(owner) && buffers == old(buffers)
    {
      hide MapsOk, BuffersOk, HostRange, Uses;
      var h := host / 4096 - 1;
      if h !in buffers {
        return InvalidParameter;
      }
      BufferAt(owner, buffers, h);
      var stash := buffers[h].stash;
      OwnedApart(owner, h, 1 + pages, Common(stash), stash, pages, Stash(stash));
      FreePages(stash, pages);
      FreePages(h, pages + 1);
      buffers := buffers - {h};
      GoneBuffer(old(owner), old(buffers), h);
      return Success;
    }

    lemma GoneBuffer(before: map<nat, Owner>, buffers0: map<nat, Buffer>, h: nat)
      requires MapsOk(before, buffers0, pool, cleared, mapInfos) && BuffersOk(before, buffers0)
      requires h in buffers0 && buffers == buffers0 - {h}
      requires forall m :: m in mapInfos ==> !Uses(m, h, buffers0[h].pages)
      requires forall p :: p in before && !Between(p, h, 1 + buffers0[h].pages)
                           && !Between(p, buffers0[h].stash, buffers0[h].pages) ==>
                             p in owner && owner[p] == before[p]
      ensures MapsOk(owner, buffers, pool, cleared, mapInfos) && BuffersOk(owner, buffers)
    {
      assert BufferOk(before, buffers0, h);
      forall x | x in buffers
        ensures BufferOk(owner, buffers, x)
      {
        OtherBuffer(before, buffers0, h, x);
      }
      forall i | 0 <= i < |mapInfos|
        ensures MappingOk(owner, buffers, mapInfos[i])
      {
        assert mapInfos[i] in mapInfos;
        OtherMapping(before, buffers0, h, mapInfos[i]);
      }
    }

    lemma OtherBuffer(before: map<nat, Owner>, buffers0: map<nat, Buffer>, h: nat, x: nat)
      requires BuffersOk(before, buffers0) && h in buffers0 && buffers == buffers0 - {h} && x in buffers
      requires forall p :: p in before && !Between(p, h, 1 + buffers0[h].pages)
                           && !Between(p, buffers0[h].stash, buffers0[h].pages) ==>
                             p in owner && owner[p] == before[p]
      ensures BufferOk(owner, buffers, x)
    {
      assert BufferOk(before, buffers0, x) && BufferOk(before, buffers0, h);
      var a := buffers0[x];
      forall p | Between(p, x, 1 + a.pages) || Between(p, a.stash, a.pages)
        ensures p in owner && owner[p] == before[p]
      {
        assert p in before && (before[p] == Common(a.stash) || before[p] == Stash(a.stash));
      }
    }

    lemma OtherMapping(before: map<nat, Owner>, buffers0: map<nat, Buffer>, h: nat, m: MapInfo)
      requires h in buffers0 && buffers == buffers0 - {h}
      requires MappingOk(before, buffers0, m) && BufferOk(before, buffers0, h)
      requires !Uses(m, h, buffers0[h].pages)
      requires forall p :: p in before && !Between(p, h, 1 + buffers0[h].pages)
                           && !Between(p, buffers0[h].stash, buffers0[h].pages) ==>
                             p in owner && owner[p] == before[p]
      ensures MappingOk(owner, buffers, m)
    {
      if !m.operation.IsCommon() {
        forall p | Between(p, m.plainPage, m.Pages())
          ensures p in owner && owner[p] == before[p]
        {
          assert p in before && before[p] == Bounce(m.id);
        }
        forall p | m.crypted / 4096 <= p && 4096 * p < m.crypted + m.bytes
          ensures p in owner && owner[p] == before[p]
        {
          assert p in before && !before[p].Stash?;
        }
      }
    }

    // ----- The bus master -----

    /** A device writes to memory; it reaches plaintext pages only. */
    method DeviceWrite(m: MapInfo, data: seq<byte>)
      requires Valid() && m in mapInfos && |data| <= m.bytes && m.Plain() + m.bytes <= |mem|
      modifies this`mem
      ensures Valid() && Framed(old(mem), mem, m.Plain(), |data|, 0, 0)
      ensures mem[m.Plain()..m.Plain() + |data|] == data
    {
      mem := mem[..m.Plain()] + data + mem[m.Plain() + |data|..];
    }

    /**
     Map, a full write by the device, and Unmap: the host ends with exactly
     the device's bytes, and masks, allocations and mappings are as before.
     */
    method BusMasterWrite(operation: Operation, host: nat, data: seq<byte>, id: nat, place: nat)
      returns (status: Status)
      requires Valid() && (operation.IsWrite() || operation.IsCommon()) && host != 0 && MayMap(operation, host, |data|)
      modifies this
      ensures Valid() && mapInfos == old(mapInfos) && cleared == old(cleared) && pool == old(pool)
      ensures status == Success ==> host + |data| <= |mem| && mem[host..host + |data|] == data
      ensures status == Success <==>
                && id !in old(pool)
                && match operation
                   case CommonBuffer => host + 4096 * ((|data| + 4095) / 4096) <= 0x1_0000_0000
                   case Write => FreeRun(old(owner), pageCount, place, (|data| + 4095) / 4096, 0xFFFF_FFFF)
                   case Write64 => FreeRun(old(owner), pageCount, place, (|data| + 4095) / 4096, 0xFFFF_FFFF_FFFF_FFFF)
                   case _ => true
      ensures owner.Keys == old(owner).Keys
    {
      hide MapsOk, BuffersOk, HostRange, Shown, Taken, PlainSet;
      MapsOkParts(owner, buffers, pool, cleared, mapInfos);
      var mapping;
      status, mapping := Map(operation, host, |data|, id, place);
      if status == Success {
        ShownSize(mapping, StashOf(mapping), old(mem), mem);
        WriteAndUnmap(mapping, data, old(mapInfos), old(pool), old(owner));
      }
    }

    /** The device writes into the newest mapping, which is then taken down. */
    method WriteAndUnmap(m: MapInfo, data: seq<byte>, ghost ms: seq<MapInfo>, ghost ids: set<nat>,
                         ghost before: map<nat, Owner>)
      requires Valid() && mapInfos == [m] + ms && m.id !in ids && pool == ids + {m.id}
      requires m.bytes == |data| && !m.operation.IsRead() && m.Plain() + |data| <= |mem|
      requires if m.operation.IsCommon() then owner == before else Taken(m, before, owner)
      modifies this`mem, this`cleared, this`owner, this`pool, this`mapInfos
      ensures Valid() && mapInfos == ms && pool == ids && cleared == PlainSet(ms) && owner.Keys == before.Keys
      ensures m.crypted + |data| <= |mem| && mem[m.crypted..m.crypted + |data|] == data
    {
      hide BuffersOk, HostRange, Taken, Returned, Without;
      HeadOff(m, ms);
      IdBack(ids, m.id);
      DeviceWrite(m, data);
      ghost var written, taken := mem, owner;
      UnmapWorker(0, false);
      RoundTrip(m, StashOf(m), written, mem, data);
      if m.operation.IsCommon() {
        SameKeys(before, owner);
      } else {
        GivenBack(m, before, taken, owner);
      }
    }
  }

  lemma ShownSize(m: MapInfo, stash: nat, before: seq<byte>, after: seq<byte>)
    requires Shown(m, stash, before, after)
    ensures m.Plain() + m.bytes <= |after|
  {
  }

  lemma GivenBack(m: MapInfo, before: map<nat, Owner>, taken: map<nat, Owner>, after: map<nat, Owner>)
    requires Taken(m, before, taken)
    requires forall p :: p in after <==> p in taken && !Between(p, m.plainPage, m.Pages())
    ensures after.Keys == before.Keys
  {
    forall p
      ensures p in after.Keys <==> p in before.Keys
    {
      assert p in m.PlainPages() <==> Between(p, m.plainPage, m.Pages());
    }
  }

  lemma IdBack(ids: set<nat>, id: nat)
    requires id !in ids
    ensures ids + {id} - {id} == ids
  {
  }

  lemma SameKeys(before: map<nat, Owner>, after: map<nat, Owner>)
    requires forall p :: p in after <==> p in before
    ensures after.Keys == before.Keys
  {
  }

  lemma HeadOff(m: MapInfo, ms: seq<MapInfo>)
    ensures ([m] + ms)[0] == m && Without([m] + ms, 0) == ms
  {
  }

  lemma RoundTrip(m: MapInfo, stash: nat, before: seq<byte>, after: seq<byte>, data: seq<byte>)
    requires Returned(m, stash, before, after) && !m.operation.IsRead() && m.bytes == |data|
    requires m.Plain() + |data| <= |before| && before[m.Plain()..m.Plain() + |data|] == data
    ensures m.crypted + |data| <= |after| && after[m.crypted..m.crypted + |data|] == data
  {
  }
}
