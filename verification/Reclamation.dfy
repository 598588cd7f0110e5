/** Lemmas for giving an allocation back: a system block, a slab slot, a whole slab page. */
module Reclamation {
  import opened Collections
  import opened MachineWords
  import opened HeapModel
  import opened HeapInvariant
  import opened HeapLemmas
  import opened PageTables
  import opened SystemAllocation
  import opened SlabAllocation

  // ----- Counting -----

  lemma {:induction false} ElementsSize(s: seq<nat>)
    requires NoDuplicates(s)
    ensures |Elements(s)| == |s|
  {
    if s != [] {
      var t := s[1..];
      ElementsSize(t);
      assert Elements(s) == Elements(t) + {s[0]};
    } else {
      assert Elements(s) == {};
    }
  }

  /** Distinct indexes below n number at most n, and exactly n only when all occur. */
  lemma Pigeonhole(s: seq<nat>, n: nat)
    requires NoDuplicates(s) && forall i :: i in s ==> i < n
    ensures |s| <= n
    ensures |s| == n ==> forall i :: 0 <= i < n ==> i in s
  {
    ElementsSize(s);
    RangeSize(0, n);
    SubsetSize(Elements(s), Range(0, n));
  }

  ghost function LiveSlots(h: Headers, c: SlabClass, p: nat): set<nat> {
    set i: nat | i < c.slotsPerPage && SlotIsLive(h, c, p, i)
  }

  ghost predicate SlotIsLive(h: Headers, c: SlabClass, p: nat, i: nat) {
    var a := SlotAddress(c.slotStride, c.headerOffset, p, i);
    a in h && h[a].live
  }

  /** liveCount is the number of live slots of the page. */
  lemma LiveCountIsExact(h: Headers, c: SlabClass, p: nat, pg: SlabPage, f: seq<nat>)
    requires PageOK(h, c, p, pg, f)
    ensures pg.liveCount == |LiveSlots(h, c, p)|
  {
    hide SlotAddress, FreeChain, Range;
    var used, freed := Range(0, pg.nextUnusedSlot), Elements(f);
    forall i: nat
      ensures i in LiveSlots(h, c, p) <==> i in used && i !in freed
    {
      if i < c.slotsPerPage {
        var a := SlotAddress(c.slotStride, c.headerOffset, p, i);
        assert SlotIsLive(h, c, p, i) <==> a in h && h[a].live;
      }
    }
    assert freed <= used;
    RangeSize(0, pg.nextUnusedSlot);
    ElementsSize(f);
    hide PageOK, LiveSlots, SlotIsLive, Elements;
    assert LiveSlots(h, c, p) == used - freed;
    assert used == (used - freed) + freed;
  }

  // ----- System allocations -----

  function RemoveBlock(h: Headers, base: nat, blocks: Blocks): Headers
    requires base in blocks
  {
    map x | x in h && !InBlock(x, base, blocks) :: h[x]
  }

  /** Freeing the block of system header a removes exactly that header. */
  lemma RemoveSystemHeader(h: Headers, h': Headers, a: nat, places: Places, pages: Pages, classes: Classes, byKey: map<nat, nat>,
                           free: map<nat, seq<nat>>, blocks: Blocks)
    requires PagesOK(h, pages, classes, free, blocks) && PlacesOK(h, places, pages, classes, blocks) && ClassesOK(classes, byKey)
    requires SlotsPlaced(places, pages, classes) && BlocksOwned(blocks, places, pages) && BlocksApart(blocks)
    requires a in places && places[a].SystemPlace? && places[a].base in blocks
    requires h.Keys == h'.Keys && forall x :: x in h && x != a ==> h'[x] == h[x]
    ensures var base := places[a].base;
      && (forall x :: x in h ==> (InBlock(x, base, blocks) <==> x == a))
      && PagesOK(h' - {a}, pages, classes, free, blocks - {base})
      && PlacesOK(h' - {a}, places - {a}, pages, classes, blocks - {base})
      && SlotsPlaced(places - {a}, pages, classes) && BlocksOwned(blocks - {base}, places - {a}, pages) && BlocksApart(blocks - {base})
  {
    var base := places[a].base;
    hide PageOK, ClassesOK, SlotAddress, HeaderOK, PagesOK, SlotsPlaced, BlocksOwned, BlocksApart;
    assert PlaceOK(a, h[a], places[a], pages, classes, blocks);
    OnlyOwnerInBlock(base, a, h, places, pages, classes, free, blocks, byKey);
    hide PlaceOK, PlacesOK;
    ApartWithout(blocks, base);
    PlacesWithout(h, h', a, base, places, pages, classes, blocks);
    WithoutSystemPlace(h, h', a, base, places, pages, classes, free, blocks);
  }

  lemma PlacesWithout(h: Headers, h': Headers, a: nat, base: nat, places: Places, pages: Pages, classes: Classes, blocks: Blocks)
    requires PlacesOK(h, places, pages, classes, blocks)
    requires base in blocks && blocks[base].owner == SystemBlock(a)
    requires h.Keys == h'.Keys && forall x :: x in h && x != a ==> h'[x] == h[x]
    ensures PlacesOK(h' - {a}, places - {a}, pages, classes, blocks - {base})
  {
    hide HeaderOK, SlotAddress;
    forall x | x in places && x != a
      ensures PlaceOK(x, h'[x], places[x], pages, classes, blocks - {base})
    {
      assert PlaceOK(x, h[x], places[x], pages, classes, blocks);
    }
  }

  lemma ApartWithout(blocks: Blocks, base: nat)
    requires BlocksApart(blocks)
    ensures BlocksApart(blocks - {base})
  {
  }

  lemma WithoutSystemPlace(h: Headers, h': Headers, a: nat, base: nat, places: Places, pages: Pages, classes: Classes,
                           free: map<nat, seq<nat>>, blocks: Blocks)
    requires PagesOK(h, pages, classes, free, blocks) && SlotsPlaced(places, pages, classes) && BlocksOwned(blocks, places, pages)
    requires base in blocks && blocks[base].owner == SystemBlock(a) && a in places && places[a] == SystemPlace(base)
    requires h.Keys == h'.Keys && forall x :: x in h && x != a ==> h'[x] == h[x]
    ensures PagesOK(h' - {a}, pages, classes, free, blocks - {base})
    ensures SlotsPlaced(places - {a}, pages, classes) && BlocksOwned(blocks - {base}, places - {a}, pages)
  {
    hide SlotAddress;
    forall p | p in pages
      ensures PageGeometryOK(p, pages[p], classes, blocks - {base})
      ensures PageOK(h' - {a}, classes[pages[p].slabClass], p, pages[p], free[p])
      ensures PageSlotsPlaced(places - {a}, classes[pages[p].slabClass], p)
    {
      assert PageGeometryOK(p, pages[p], classes, blocks);
      var c := classes[pages[p].slabClass];
      assert PageSlotsPlaced(places, c, p);
      assert PageOK(h, c, p, pages[p], free[p]);
      PageFrame(h, h' - {a}, c, c, p, pages[p], pages[p], free[p]);
    }
    hide PageOK, PageGeometryOK, PageSlotsPlaced;
  }

  lemma WithoutHeaderKeepsActive(h: Headers, a: nat, s: seq<nat>, head: nat)
    requires ActiveList(h, s, head) && a !in s && a in h
    requires forall x :: x in s ==> x in h && h[x].live
    requires forall x :: x in h && h[x].live && x != a ==> x in s
    ensures ActiveList(h - {a}, s, head) && LiveIffActive(h - {a}, s)
  {
    hide NoDuplicates;
    var h' := h - {a};
    forall i | 0 <= i < |s|
      ensures LinkedAt(h', s, i)
    {
      assert LinkedAt(h, s, i);
    }
  }

  // ----- Slab slots -----

  /** Pushing a live slot on the free list. */
  lemma PushedPage(h: Headers, hd: AllocationHeader, c: SlabClass, p: nat, pg: SlabPage, f: seq<nat>, a: nat, i: nat)
    requires GeometryOK(c) && PageOK(h, c, p, pg, f)
    requires i < c.slotsPerPage && a == SlotAddress(c.slotStride, c.headerOffset, p, i) && a in h && h[a].live
    requires !hd.live && hd.next == pg.freeList
    ensures pg.liveCount > 0
    ensures PageOK(h[a := hd], c, p, pg.(freeList := a, liveCount := pg.liveCount - 1), [i] + f)
  {
    hide GeometryOK, SlotAddress;
    assert i !in f && i < pg.nextUnusedSlot;
    var f' := [i] + f;
    PrependKeepsDistinct(i, f);
    Pigeonhole(f', pg.nextUnusedSlot);
    hide NoDuplicates;
    forall j | 0 <= j < c.slotsPerPage && j != i
      ensures SlotAddress(c.slotStride, c.headerOffset, p, j) != a
    {
      DistinctSlots(c, p, j, i);
    }
    FreeChainFrame(h, h[a := hd], c, c, p, f, pg.freeList);
    assert f'[1..] == f;
  }

  lemma PrependKeepsDistinct(i: nat, f: seq<nat>)
    requires NoDuplicates(f) && i !in f
    ensures NoDuplicates([i] + f)
    ensures forall j :: j in [i] + f <==> j == i || j in f
  {
  }

  // ----- Slab pages -----

  /** A page without live slots holds no active header. */
  lemma EmptyPageHasNoLiveSlot(h: Headers, c: SlabClass, p: nat, pg: SlabPage, f: seq<nat>)
    requires PageOK(h, c, p, pg, f) && pg.liveCount == 0
    ensures forall i {:trigger SlotAddress(c.slotStride, c.headerOffset, p, i)} :: 0 <= i < c.slotsPerPage ==>
      var a := SlotAddress(c.slotStride, c.headerOffset, p, i); a in h && !h[a].live
  {
    hide SlotAddress;
    Pigeonhole(f, pg.nextUnusedSlot);
  }

  ghost predicate SlotOf(places: Places, p: nat, x: nat) {
    x in places && places[x].SlotPlace? && places[x].page == p
  }

  /** The raw block of a slab page holds the slots of that page and no other header. */
  lemma BlockHoldsItsSlots(h: Headers, places: Places, pages: Pages, classes: Classes, byKey: map<nat, nat>, free: map<nat, seq<nat>>,
                           blocks: Blocks, p: nat)
    requires PagesOK(h, pages, classes, free, blocks) && PlacesOK(h, places, pages, classes, blocks) && ClassesOK(classes, byKey)
    requires BlocksApart(blocks) && p in pages
    ensures var base := pages[p].allocationBase;
      base in blocks && blocks[base].owner == PageBlock(p)
      && forall x :: x in h ==> (InBlock(x, base, blocks) <==> SlotOf(places, p, x))
  {
    var base := pages[p].allocationBase;
    hide PageOK;
    assert PageGeometryOK(p, pages[p], classes, blocks);
    forall x | x in h
      ensures InBlock(x, base, blocks) <==> SlotOf(places, p, x)
    {
      HeaderInsideBlock(x, h, places, pages, classes, free, blocks, byKey);
      assert InBlock(x, base, blocks) <==> HomeBlock(places, pages, x) == base;
      HomeOfPageBlock(x, h, places, pages, classes, free, blocks, p);
    }
  }

  lemma HomeOfPageBlock(x: nat, h: Headers, places: Places, pages: Pages, classes: Classes, free: map<nat, seq<nat>>, blocks: Blocks, p: nat)
    requires PagesOK(h, pages, classes, free, blocks) && PlacesOK(h, places, pages, classes, blocks)
    requires p in pages && x in places
    ensures HomeBlock(places, pages, x) == pages[p].allocationBase <==> SlotOf(places, p, x)
  {
    hide PageOK, SlotAddress, HeaderOK;
    assert PlaceOK(x, h[x], places[x], pages, classes, blocks);
    assert forall q :: q in pages ==> PageGeometryOK(q, pages[q], classes, blocks);
  }

  lemma PagesWithout(h: Headers, h': Headers, places: Places, pages: Pages, classes: Classes, free: map<nat, seq<nat>>, blocks: Blocks, p: nat)
    requires PagesOK(h, pages, classes, free, blocks) && SlotsPlaced(places, pages, classes)
    requires p in pages && pages[p].allocationBase in blocks
    requires h.Keys == places.Keys
    requires forall x :: x in h && !SlotOf(places, p, x) ==> x in h' && h'[x] == h[x]
    ensures PagesOK(h', pages - {p}, classes, free - {p}, blocks - {pages[p].allocationBase})
  {
    hide SlotAddress;
    var pages' := pages - {p};
    var blocks' := blocks - {pages[p].allocationBase};
    forall q | q in pages'
      ensures PageGeometryOK(q, pages'[q], classes, blocks')
      ensures PageOK(h', classes[pages'[q].slabClass], q, pages'[q], free[q])
    {
      assert PageGeometryOK(q, pages[q], classes, blocks);
      assert PageGeometryOK(p, pages[p], classes, blocks);
      var c := classes[pages[q].slabClass];
      assert PageSlotsPlaced(places, c, q);
      assert PageOK(h, c, q, pages[q], free[q]);
      PageFrame(h, h', c, c, q, pages[q], pages[q], free[q]);
    }
    hide PageOK, PageGeometryOK;
  }

  lemma PlacesWithoutPage(h: Headers, h': Headers, places: Places, places': Places, pages: Pages, classes: Classes, blocks: Blocks, p: nat)
    requires PlacesOK(h, places, pages, classes, blocks) && SlotsPlaced(places, pages, classes)
    requires p in pages && pages[p].allocationBase in blocks && blocks[pages[p].allocationBase].owner == PageBlock(p)
    requires h'.Keys == places'.Keys
    requires forall x :: x in places ==> (x in places' <==> !SlotOf(places, p, x))
    requires forall x :: x in places' ==> x in h && x in h' && h'[x] == h[x] && x in places && places'[x] == places[x]
    ensures PlacesOK(h', places', pages - {p}, classes, blocks - {pages[p].allocationBase})
    ensures SlotsPlaced(places', pages - {p}, classes)
  {
    hide SlotAddress, HeaderOK;
    var blocks' := blocks - {pages[p].allocationBase};
    var pages' := pages - {p};
    forall x | x in places'
      ensures PlaceOK(x, h'[x], places'[x], pages', classes, blocks')
    {
      assert PlaceOK(x, h[x], places[x], pages, classes, blocks);
    }
    hide PlaceOK, PlacesOK;
    forall q | q in pages'
      ensures pages'[q].slabClass < |classes| && PageSlotsPlaced(places', classes[pages'[q].slabClass], q)
    {
      var c := classes[pages[q].slabClass];
      assert PageSlotsPlaced(places, c, q);
      forall i | 0 <= i < c.slotsPerPage
        ensures var a := SlotAddress(c.slotStride, c.headerOffset, q, i);
          a in places' && places'[a] == SlotPlace(q, i)
      {
        var a := SlotAddress(c.slotStride, c.headerOffset, q, i);
        assert a in places && places[a] == SlotPlace(q, i);
      }
    }
  }

  lemma OwnedWithoutPage(blocks: Blocks, places: Places, places': Places, pages: Pages, p: nat)
    requires BlocksOwned(blocks, places, pages) && p in pages
    requires forall x :: x in places && !SlotOf(places, p, x) ==> x in places' && places'[x] == places[x]
    ensures BlocksOwned(blocks - {pages[p].allocationBase}, places', pages - {p})
  {
  }

  lemma ActiveWithoutPage(h: Headers, h': Headers, s: seq<nat>, head: nat)
    requires ActiveList(h, s, head) && LiveIffActive(h, s)
    requires forall x :: x in h' ==> x in h && h'[x] == h[x]
    requires forall x :: x in h && h[x].live ==> x in h'
    ensures ActiveList(h', s, head) && LiveIffActive(h', s)
  {
    hide NoDuplicates;
    forall i | 0 <= i < |s|
      ensures LinkedAt(h', s, i)
    {
      assert LinkedAt(h, s, i);
      assert s[i] in s;
    }
  }

  lemma SystemMapWithoutPage(sysMap: map<nat, seq<nat>>, h: Headers, h': Headers, places: Places, places': Places, p: nat)
    requires SystemMapOK(sysMap, h, places) && h.Keys == places.Keys && h'.Keys == places'.Keys
    requires forall x :: x in places ==> (x in places' <==> !SlotOf(places, p, x))
    requires forall x :: x in places' ==> x in h && x in h' && h'[x] == h[x] && x in places && places'[x] == places[x]
    ensures SystemMapOK(sysMap, h', places')
  {
    hide NoDuplicates, Covers;
    forall key | key in sysMap
      ensures BucketOK(sysMap[key], key, h', places')
    {
      assert BucketOK(sysMap[key], key, h, places);
    }
  }

  lemma ListsWithoutPage(pages: Pages, classes: Classes, nonFull: seq<seq<nat>>, p: nat)
    requires NonFullOK(pages, classes, nonFull, p) && p in pages && !Listed(pages, nonFull, p)
    ensures NonFullOK(pages - {p}, classes, nonFull, 0)
  {
    var pages' := pages - {p};
    forall k | 0 <= k < |classes|
      ensures ClassList(pages', nonFull[k], k, classes[k].nonFullPages)
    {
      assert ClassList(pages, nonFull[k], k, classes[k].nonFullPages);
      hide PageList;
      PageListFrame(pages, pages', nonFull[k], classes[k].nonFullPages);
    }
    hide ClassList;
    forall q | q in pages'
      ensures PageListed(pages', classes, nonFull, q, 0)
    {
      assert PageListed(pages, classes, nonFull, q, p);
    }
  }

  ghost predicate SlabUnmapped(slabMap: map<nat, nat>, slabMap': map<nat, nat>, lo: nat, hi: nat) {
    forall key: nat ::
      (key in slabMap' <==> key in slabMap && !(lo <= key < hi)) && (key in slabMap' && key in slabMap ==> slabMap'[key] == slabMap[key])
  }

  lemma UnmapOneMore(slabMap: map<nat, nat>, m: map<nat, nat>, lo: nat, hi: nat)
    requires lo <= hi && SlabUnmapped(slabMap, m, lo, hi)
    ensures SlabUnmapped(slabMap, m - {hi}, lo, hi + 1)
  {
  }

  lemma SlabMapWithoutPage(slabMap: map<nat, nat>, slabMap': map<nat, nat>, pages: Pages, p: nat)
    requires SlabMapOK(slabMap, pages) && p in pages
    requires SlabUnmapped(slabMap, slabMap', p / ADDRESS_PAGE_BYTES, p / ADDRESS_PAGE_BYTES + SLAB_ADDRESS_PAGES)
    ensures SlabMapOK(slabMap', pages - {p})
  {
  }

  function RemovePlaces(places: Places, base: nat, blocks: Blocks): Places
    requires base in blocks
  {
    map x | x in places && !InBlock(x, base, blocks) :: places[x]
  }

  /** Freeing the block of a slab page without live slots leaves a consistent registry. */
  lemma RemoveSlabPage(h: Headers, s: seq<nat>, head: nat, places: Places, pages: Pages, classes: Classes, byKey: map<nat, nat>,
                       free: map<nat, seq<nat>>, blocks: Blocks, sysMap: map<nat, seq<nat>>, nonFull: seq<seq<nat>>,
                       slabMap: map<nat, nat>, slabMap': map<nat, nat>, p: nat)
    requires ActiveList(h, s, head) && LiveIffActive(h, s) && ClassesOK(classes, byKey)
    requires PagesOK(h, pages, classes, free, blocks) && PlacesOK(h, places, pages, classes, blocks)
    requires SlotsPlaced(places, pages, classes) && BlocksOwned(blocks, places, pages) && BlocksApart(blocks)
    requires SystemMapOK(sysMap, h, places) && SlabMapOK(slabMap, pages)
    requires NonFullOK(pages, classes, nonFull, p) && p in pages && !Listed(pages, nonFull, p)
    requires pages[p].liveCount == 0
    requires SlabUnmapped(slabMap, slabMap', p / ADDRESS_PAGE_BYTES, p / ADDRESS_PAGE_BYTES + SLAB_ADDRESS_PAGES)
    ensures pages[p].allocationBase in blocks
    ensures var base := pages[p].allocationBase;
      var h', places', pages' := RemoveBlock(h, base, blocks), RemovePlaces(places, base, blocks), pages - {p};
      && ActiveList(h', s, head) && LiveIffActive(h', s) && KeepsHeaders(h, h', s)
      && PagesOK(h', pages', classes, free - {p}, blocks - {base})
      && PlacesOK(h', places', pages', classes, blocks - {base})
      && SlotsPlaced(places', pages', classes) && BlocksOwned(blocks - {base}, places', pages') && BlocksApart(blocks - {base})
      && SystemMapOK(sysMap, h', places') && SlabMapOK(slabMap', pages')
      && NonFullOK(pages', classes, nonFull, 0)
  {
    BlockHoldsItsSlots(h, places, pages, classes, byKey, free, blocks, p);
    var base := pages[p].allocationBase;
    var h' := RemoveBlock(h, base, blocks);
    var places' := RemovePlaces(places, base, blocks);
    PlacesKeys(h, places, pages, classes, blocks);
    DeadSlots(h, places, pages, classes, free, blocks, p);
    assert forall x :: x in places ==> (x in places' <==> !SlotOf(places, p, x));
    hide ActiveList, LiveIffActive, ClassesOK, PagesOK, PlacesOK, SlotsPlaced, BlocksOwned, BlocksApart, SystemMapOK, SlabMapOK,
      NonFullOK, Listed, SlabUnmapped, InBlock, SlotOf;
    assert KeepsHeaders(h, h', s) by { ActiveSurvives(h, h', s, head); }
    ActiveWithoutPage(h, h', s, head);
    PagesWithout(h, h', places, pages, classes, free, blocks, p);
    PlacesWithoutPage(h, h', places, places', pages, classes, blocks, p);
    OwnedWithoutPage(blocks, places, places', pages, p);
    ApartWithout(blocks, base);
    SystemMapWithoutPage(sysMap, h, h', places, places', p);
    SlabMapWithoutPage(slabMap, slabMap', pages, p);
    ListsWithoutPage(pages, classes, nonFull, p);
  }

  lemma ActiveSurvives(h: Headers, h': Headers, s: seq<nat>, head: nat)
    requires LiveIffActive(h, s)
    requires forall x :: x in h && h[x].live ==> x in h'
    requires forall x :: x in h' ==> x in h && h'[x] == h[x]
    ensures KeepsHeaders(h, h', s)
  {
  }

  lemma DeadSlots(h: Headers, places: Places, pages: Pages, classes: Classes, free: map<nat, seq<nat>>, blocks: Blocks, p: nat)
    requires PagesOK(h, pages, classes, free, blocks) && PlacesOK(h, places, pages, classes, blocks)
    requires p in pages && pages[p].liveCount == 0
    ensures forall x :: x in h && SlotOf(places, p, x) ==> !h[x].live
  {
    hide SlotAddress, HeaderOK;
    assert PageGeometryOK(p, pages[p], classes, blocks);
    EmptyPageHasNoLiveSlot(h, classes[pages[p].slabClass], p, pages[p], free[p]);
    hide PagesOK;
    forall x | x in h && SlotOf(places, p, x)
      ensures !h[x].live
    {
      assert PlaceOK(x, h[x], places[x], pages, classes, blocks);
    }
  }

  // ----- The retired header -----

  /** The header of a slab allocation after it was unlinked and pushed on its page's free list. */
  lemma RetiredSlotKeepsRegistry(h: Headers, hd: AllocationHeader, s: seq<nat>, head: nat, a: nat, places: Places, pages: Pages,
                                 classes: Classes, free: map<nat, seq<nat>>, blocks: Blocks,
                                 sysMap: map<nat, seq<nat>>, nonFull: seq<seq<nat>>, slabMap: map<nat, nat>,
                                 p: nat, k: nat, pg': SlabPage, f': seq<nat>)
    requires ActiveList(h, s, head) && LiveButFor(h, a, s)
    requires PagesOK(h, pages, classes, free, blocks) && PlacesOK(h, places, pages, classes, blocks)
    requires SlotsPlaced(places, pages, classes) && BlocksOwned(blocks, places, pages) && SystemMapOK(sysMap, h, places)
    requires NonFullOK(pages, classes, nonFull, 0) && SlabMapOK(slabMap, pages)
    requires a in h && a in places && places[a] == SlotPlace(p, k) && !hd.live
    requires p in pages && p in free && pages[p].slabClass < |classes|
    requires PageOK(h[a := hd], classes[pages[p].slabClass], p, pg', f')
    requires pg' == pages[p].(freeList := a, liveCount := pg'.liveCount)
    ensures ActiveList(h[a := hd], s, head) && LiveIffActive(h[a := hd], s)
    ensures PagesOK(h[a := hd], pages[p := pg'], classes, free[p := f'], blocks)
    ensures PlacesOK(h[a := hd], places, pages[p := pg'], classes, blocks)
    ensures SlotsPlaced(places, pages[p := pg'], classes) && BlocksOwned(blocks, places, pages[p := pg'])
    ensures SystemMapOK(sysMap, h[a := hd], places)
    ensures NonFullOK(pages[p := pg'], classes, nonFull, p) && SlabMapOK(slabMap, pages[p := pg'])
  {
    RetiredIsDead(h, hd, a, s);
    hide *;
    HeaderChangeKeepsActive(h, h[a := hd], a, s, head);
    OtherPagesKept(h, h[a := hd], a, k, p, pg', f', places, pages, classes, free, blocks);
    SlotChangeKeepsPlaces(h, h[a := hd], a, p, pg', places, pages, classes, blocks);
    SlotChangeKeepsSystemMap(sysMap, h, h[a := hd], a, places);
    PageChangeKeepsLists(pages, classes, nonFull, p, pg', slabMap);
  }

  lemma RetiredIsDead(h: Headers, hd: AllocationHeader, a: nat, s: seq<nat>)
    requires LiveButFor(h, a, s) && a in h && !hd.live
    ensures h[a := hd].Keys == h.Keys && a !in s && LiveIffActive(h[a := hd], s)
  {
  }

  /** Every live header is on the list s except a, which was just unlinked. */
  ghost predicate LiveButFor(h: Headers, a: nat, s: seq<nat>) {
    && a !in s
    && (forall x :: x in s ==> x in h && h[x].live)
    && (forall x :: x in h && h[x].live && x != a ==> x in s)
  }

  lemma UnlinkedIsLiveButFor(h: Headers, h': Headers, s: seq<nat>, s': seq<nat>, a: nat)
    requires LiveIffActive(h, s) && SameOffList(h, h', s) && a in s
    requires forall x :: x in s' <==> x in s && x != a
    ensures LiveButFor(h', a, s') && LiveIffActive(h', s)
    ensures a in h' && Unlinked(h'[a]) == Unlinked(h[a]) && KeepsHeaders(h, h', s')
  {
    RelinkKeepsLive(h, h', s, s);
  }

  lemma RetiredPage(h: Headers, hd: AllocationHeader, a: nat, places: Places, pages: Pages, classes: Classes, byKey: map<nat, nat>,
                    free: map<nat, seq<nat>>, blocks: Blocks)
    requires PagesOK(h, pages, classes, free, blocks) && PlacesOK(h, places, pages, classes, blocks) && ClassesOK(classes, byKey)
    requires a in places && places[a].SlotPlace? && a in h && h[a].live
    requires places[a].page in pages && places[a].page in free
    requires !hd.live && hd.next == pages[places[a].page].freeList
    ensures var p := places[a].page;
      && pages[p].liveCount > 0 && pages[p].slabClass < |classes|
      && PageOK(h[a := hd], classes[pages[p].slabClass], p, pages[p].(freeList := a, liveCount := pages[p].liveCount - 1),
                [places[a].index] + free[p])
  {
    hide SlotAddress, HeaderOK, GeometryOK;
    var p := places[a].page;
    assert PlaceOK(a, h[a], places[a], pages, classes, blocks);
    assert PageGeometryOK(p, pages[p], classes, blocks);
    assert classes[pages[p].slabClass] in classes;
    hide PlacesOK, ClassesOK, PageGeometryOK, PlaceOK;
    PushedPage(h, hd, classes[pages[p].slabClass], p, pages[p], free[p], a, places[a].index);
  }

  lemma SystemPlaceOf(a: nat, h: Headers, places: Places, pages: Pages, classes: Classes, blocks: Blocks)
    requires PlacesOK(h, places, pages, classes, blocks) && a in h && h[a].live && h[a].storageKind == SystemStorage
    ensures a in places && places[a] == SystemPlace(h[a].storageOwner) && h[a].storageOwner in blocks && h[a].payloadSize >= 1
    ensures places.Keys == h.Keys
  {
    hide SlotAddress;
    assert PlaceOK(a, h[a], places[a], pages, classes, blocks);
  }

  lemma SlotPlaceOf(a: nat, h: Headers, places: Places, pages: Pages, classes: Classes, blocks: Blocks)
    requires PlacesOK(h, places, pages, classes, blocks) && a in h && h[a].live && h[a].storageKind == SlabStorage
    ensures a != 0 && a in places && places[a].SlotPlace? && places[a].page == h[a].storageOwner && h[a].storageOwner in pages
  {
    hide SlotAddress;
    assert PlaceOK(a, h[a], places[a], pages, classes, blocks);
  }

  lemma BucketsDistinct(sysMap: map<nat, seq<nat>>, h: Headers, places: Places)
    requires SystemMapOK(sysMap, h, places)
    ensures forall key :: key in sysMap ==> sysMap[key] != [] && NoDuplicates(sysMap[key])
  {
    hide NoDuplicates, Covers;
  }

  lemma UnregisteredSystemHeader(sysMap: map<nat, seq<nat>>, sysMap': map<nat, seq<nat>>, h: Headers, h': Headers, places: Places,
                                 pages: Pages, classes: Classes, blocks: Blocks, a: nat)
    requires SystemMapOK(sysMap, h, places) && PlacesOK(h, places, pages, classes, blocks)
    requires a in h && h[a].payloadSize >= 1
    requires h.Keys == h'.Keys && forall x :: x in h && x != a ==> h'[x] == h[x]
    requires Unregistered(sysMap, sysMap', a, PayloadAddress(a) / ADDRESS_PAGE_BYTES,
               (PayloadAddress(a) + h[a].payloadSize - 1) / ADDRESS_PAGE_BYTES + 1)
    ensures SystemMapOK(sysMap', h' - {a}, places - {a})
  {
    PlacesKeys(h, places, pages, classes, blocks);
    hide SystemMapOK, PlacesOK, Unregistered;
    UnregisterKeepsMap(sysMap, sysMap', h, h' - {a}, places, a);
  }

  lemma WithoutUnlinkedHeader(h: Headers, h': Headers, a: nat, s: seq<nat>, head: nat)
    requires ActiveList(h, s, head) && LiveButFor(h, a, s) && a in h
    requires h.Keys == h'.Keys && forall x :: x in h && x != a ==> h'[x] == h[x]
    ensures ActiveList(h' - {a}, s, head) && LiveIffActive(h' - {a}, s)
    ensures KeepsHeaders(h, h' - {a}, s)
  {
    assert h' - {a} == h - {a};
    WithoutHeaderKeepsActive(h, a, s, head);
  }

  lemma RetiredKeepsOthers(h: Headers, hd: AllocationHeader, a: nat, s: seq<nat>)
    requires LiveButFor(h, a, s)
    ensures KeepsHeaders(h, h[a := hd], s)
  {
  }

  lemma KeepsHeadersTransitive(h0: Headers, h1: Headers, h2: Headers, s: seq<nat>)
    requires KeepsHeaders(h0, h1, s) && KeepsHeaders(h1, h2, s)
    ensures KeepsHeaders(h0, h2, s)
  {
  }

  lemma ActiveIsLive(h: Headers, s: seq<nat>, a: nat)
    requires LiveIffActive(h, s) && a in s
    ensures a in h && h[a].live
  {
  }

  lemma ListedIgnoresCounts(pages: Pages, nonFull: seq<seq<nat>>, p: nat, pg: SlabPage)
    requires p in pages && pg.slabClass == pages[p].slabClass
    ensures Listed(pages[p := pg], nonFull, p) <==> Listed(pages, nonFull, p)
  {
  }

  /** Freeing the block of an unlinked, unregistered system header leaves a consistent registry. */
  lemma RemoveSystemAllocation(h: Headers, h': Headers, a: nat, s: seq<nat>, head: nat, places: Places, pages: Pages, classes: Classes,
                               byKey: map<nat, nat>, free: map<nat, seq<nat>>, blocks: Blocks,
                               sysMap: map<nat, seq<nat>>, sysMap': map<nat, seq<nat>>)
    requires ActiveList(h, s, head) && LiveButFor(h, a, s) && ClassesOK(classes, byKey)
    requires PagesOK(h, pages, classes, free, blocks) && PlacesOK(h, places, pages, classes, blocks)
    requires SlotsPlaced(places, pages, classes) && BlocksOwned(blocks, places, pages) && BlocksApart(blocks)
    requires SystemMapOK(sysMap, h, places) && places.Keys == h.Keys
    requires a in h && a in places && places[a].SystemPlace? && places[a].base in blocks && h[a].payloadSize >= 1
    requires h.Keys == h'.Keys && forall x :: x in h && x != a ==> h'[x] == h[x]
    requires Unregistered(sysMap, sysMap', a, PayloadAddress(a) / ADDRESS_PAGE_BYTES,
               (PayloadAddress(a) + h[a].payloadSize - 1) / ADDRESS_PAGE_BYTES + 1)
    ensures var base := places[a].base;
      var h'', places' := RemoveBlock(h', base, blocks), RemovePlaces(places, base, blocks);
      && ActiveList(h'', s, head) && LiveIffActive(h'', s) && KeepsHeaders(h, h'', s)
      && PagesOK(h'', pages, classes, free, blocks - {base}) && PlacesOK(h'', places', pages, classes, blocks - {base})
      && SlotsPlaced(places', pages, classes) && BlocksOwned(blocks - {base}, places', pages) && BlocksApart(blocks - {base})
      && SystemMapOK(sysMap', h'', places')
  {
    hide ActiveList, LiveButFor, ClassesOK, PagesOK, PlacesOK, SlotsPlaced, BlocksOwned, BlocksApart, SystemMapOK, Unregistered, LiveIffActive,
      KeepsHeaders, InBlock;
    RemoveSystemHeader(h, h', a, places, pages, classes, byKey, free, blocks);
    UnregisteredSystemHeader(sysMap, sysMap', h, h', places, pages, classes, blocks, a);
    WithoutUnlinkedHeader(h, h', a, s, head);
    assert RemoveBlock(h', places[a].base, blocks) == h' - {a};
    assert RemovePlaces(places, places[a].base, blocks) == places - {a};
  }
}
