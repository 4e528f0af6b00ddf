/**
 Page allocations: which are live, which belong to blobs of the running script,
 and when an address that QEMU holds is safe.
 */
module PageLedger {
  import opened LinkerScript
  import opened BootScript

  /** EFI_PAGES_TO_SIZE (EFI_SIZE_TO_PAGES (n)) */
  function PageBytes(n: nat): (r: nat)
    ensures n <= r < n + 4096 && r % 4096 == 0
  {
    (n + 4095) / 4096 * 4096
  }

  /** A live page allocation. */
  datatype Extent = Extent(base: nat, length: nat) {
    predicate Contains(address: int) {
      base <= address < base + length
    }

    predicate Clear(other: Extent) {
      base + length <= other.base || other.base + other.length <= base
    }
  }

  type Pages = set<Extent>

  /** The whole pages that a blob of this size occupies. */
  function PagesOf(blob: Blob): Extent {
    Extent(blob.base, PageBytes(|blob.bytes|))
  }

  predicate Fits(pages: Pages, e: Extent, limit: nat) {
    && e.base % EFI_PAGE_SIZE == 0 && e.length > 0
    && e.base + e.length - 1 <= limit && e.base + e.length <= MAX_ADDRESS
    && (forall x {:trigger x in pages} :: x in pages ==> e.Clear(x))
  }

  ghost predicate PagesOk(pages: Pages) {
    && (forall x {:trigger x in pages} :: x in pages ==> x.length > 0 && x.base + x.length <= MAX_ADDRESS)
    && (forall x, y {:trigger x in pages, y in pages} :: x in pages && y in pages && x != y ==> x.Clear(y))
  }

  /** Every address that QEMU holds lies in memory that is still allocated. */
  ghost predicate NoDangling(pages: Pages, told: seq<Condensed>) {
    forall w {:trigger w in told} :: w in told ==> Live(pages, w.value)
  }

  ghost predicate Live(pages: Pages, address: int) {
    exists x {:trigger x in pages} :: x in pages && x.Contains(address)
  }

  ghost function PageSet(t: Tracker): Pages {
    set id | id in t :: PagesOf(t[id])
  }

  ghost predicate Separate(t: Tracker) {
    && (forall id {:trigger id in t} :: id in t ==> |t[id].bytes| > 0)
    && (forall x, y {:trigger x in t, y in t} :: x in t && y in t && x != y ==> PagesOf(t[x]) != PagesOf(t[y]))
  }

  /** The live allocations are those of the tracked blobs, one for each, and the others. */
  ghost predicate Owns(pages: Pages, others: Pages, t: Tracker) {
    pages == others + PageSet(t) && others !! PageSet(t) && Separate(t)
  }

  lemma OwnedPages(pages: Pages, others: Pages, t: Tracker)
    requires Owns(pages, others, t)
    ensures pages == others + PageSet(t)
  {
  }

  lemma Owned(pages: Pages, others: Pages, t: Tracker, id: string)
    requires Owns(pages, others, t) && id in t
    ensures PagesOf(t[id]) in pages && |t[id].bytes| > 0
  {
    assert PagesOf(t[id]) in PageSet(t);
  }

  lemma OwnedBlobsWellPlaced(pages: Pages, others: Pages, t: Tracker)
    requires PagesOk(pages) && Owns(pages, others, t)
    ensures WellPlaced(t)
  {
    forall x, y | x in t && y in t && x != y
      ensures Apart(t[x], t[y])
    {
      Owned(pages, others, t, x);
      Owned(pages, others, t, y);
      assert PagesOf(t[x]).Clear(PagesOf(t[y]));
    }
    forall id | id in t
      ensures |t[id].bytes| > 0 && t[id].base + |t[id].bytes| <= MAX_ADDRESS
    {
      Owned(pages, others, t, id);
    }
  }

  lemma OwnsOneMore(pages: Pages, others: Pages, t: Tracker, id: string, blob: Blob)
    requires Owns(pages, others, t) && id !in t && |blob.bytes| > 0
    requires PagesOf(blob) !in pages
    ensures Owns(pages + {PagesOf(blob)}, others, t[id := blob])
  {
    var t', e := t[id := blob], PagesOf(blob);
    assert PageSet(t') == PageSet(t) + {e} by {
      assert t'[id] == blob;
      assert forall x :: x in t ==> x in t' && t'[x] == t[x];
    }
    forall x | x in t
      ensures PagesOf(t[x]) != e
    {
      Owned(pages, others, t, x);
    }
  }

  /** Taking a blob out of the tracker leaves its pages either freed or with the others. */
  lemma OwnsOneLess(pages: Pages, others: Pages, t: Tracker, id: string)
    requires Owns(pages, others, t) && id in t
    ensures PagesOf(t[id]) in pages
    ensures Owns(pages - {PagesOf(t[id])}, others, t - {id})
    ensures Owns(pages, others + {PagesOf(t[id])}, t - {id})
  {
    var t', e := t - {id}, PagesOf(t[id]);
    Owned(pages, others, t, id);
    assert PageSet(t') == PageSet(t) - {e} by {
      assert forall x :: x in t' <==> x in t && x != id;
      assert forall x :: x in t' ==> t'[x] == t[x];
    }
  }

  /** Changing what a blob contains, or how it is marked, leaves the allocations accounted for. */
  lemma OwnsUpdated(pages: Pages, others: Pages, t: Tracker, id: string, blob: Blob)
    requires Owns(pages, others, t) && id in t && PagesOf(blob) == PagesOf(t[id]) && |blob.bytes| > 0
    ensures Owns(pages, others, t[id := blob])
  {
    var t' := t[id := blob];
    assert forall x :: x in t <==> x in t';
    assert forall x :: x in t ==> PagesOf(t'[x]) == PagesOf(t[x]);
    assert PageSet(t') == PageSet(t);
  }

  /** Whether the pages of a blob outlive the run. */
  predicate Kept(blob: Blob, failed: bool) {
    !failed && !blob.hostsOnlyTableData
  }

  ghost function Survivors(t: Tracker, failed: bool): Pages {
    set id | id in t && Kept(t[id], failed) :: PagesOf(t[id])
  }

  lemma SurvivorsStep(all: Tracker, left: Tracker, id: string, failed: bool)
    requires id in left && forall x :: x in left ==> x in all && left[x] == all[x]
    ensures Survivors(all - (left - {id}).Keys, failed) ==
            Survivors(all - left.Keys, failed) + if Kept(all[id], failed) then {PagesOf(all[id])} else {}
  {
    var gone, gone' := all - left.Keys, all - (left - {id}).Keys;
    assert forall x :: x in gone' <==> x in gone || x == id;
    assert forall x :: x in gone' ==> gone'[x] == all[x];
    assert forall x :: x in gone ==> gone[x] == all[x];
  }
}
