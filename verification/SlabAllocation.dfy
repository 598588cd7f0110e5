/** Lemmas for slab pages: creating one, taking a slot, returning a slot, releasing one. */
module SlabAllocation {
  import opened Wrappers
  import opened MachineWords
  import opened HeapModel
  import opened HeapInvariant
  import opened HeapLemmas

  // ----- A new page -----

  /** What the first n slots of a page read as before any is handed out. */
  function StaleSlots(c: SlabClass, p: nat, stale: nat -> AllocationHeader, n: nat): Headers {
    if n == 0 then map[]
    else
      var a := SlotAddress(c.slotStride, c.headerOffset, p, n - 1);
      StaleSlots(c, p, stale, n - 1)[a := stale(a)]
  }

  ghost function SlotPlaces(c: SlabClass, p: nat, n: nat): Places {
    if n == 0 then map[]
    else SlotPlaces(c, p, n - 1)[SlotAddress(c.slotStride, c.headerOffset, p, n - 1) := SlotPlace(p, n - 1)]
  }

  ghost predicate IsSlot(c: SlabClass, p: nat, n: nat, a: nat, place: Place) {
    place.SlotPlace? && place.page == p && place.index < n
    && a == SlotAddress(c.slotStride, c.headerOffset, p, place.index)
  }

  lemma SlotAddressesApart(c: SlabClass, p: nat, i: nat, j: nat)
    requires GeometryOK(c) && i < j
    ensures SlotAddress(c.slotStride, c.headerOffset, p, i) + c.slotStride <= SlotAddress(c.slotStride, c.headerOffset, p, j)
    ensures c.slotStride >= HEADER_BYTES + Max(c.payloadSize, 1)
  {
    SlotOffsetMonotone(c.slotStride, i, j);
  }

  lemma {:induction false} NewPageSlots(c: SlabClass, p: nat, stale: nat -> AllocationHeader, n: nat)
    requires GeometryOK(c)
    ensures StaleSlots(c, p, stale, n).Keys == SlotPlaces(c, p, n).Keys
    ensures forall a :: a in SlotPlaces(c, p, n) ==> IsSlot(c, p, n, a, SlotPlaces(c, p, n)[a])
    ensures forall a :: a in StaleSlots(c, p, stale, n) ==> StaleSlots(c, p, stale, n)[a] == stale(a)
  {
    hide GeometryOK, SlotAddress;
    if n != 0 {
      NewPageSlots(c, p, stale, n - 1);
    }
  }

  lemma {:induction false} NewPageSlotsPlaced(c: SlabClass, p: nat, n: nat, i: nat)
    requires GeometryOK(c) && i < n
    ensures var a := SlotAddress(c.slotStride, c.headerOffset, p, i);
      a in SlotPlaces(c, p, n) && SlotPlaces(c, p, n)[a] == SlotPlace(p, i)
  {
    hide GeometryOK;
    if i < n - 1 {
      SlotAddressesApart(c, p, i, n - 1);
      NewPageSlotsPlaced(c, p, n - 1, i);
    }
  }

  lemma WholePageSlots(c: SlabClass, p: nat, pg: SlabPage, stale: nat -> AllocationHeader)
    requires GeometryOK(c) && pg.nextUnusedSlot == 0
    requires forall a: nat {:trigger stale(a)} :: !stale(a).live
    ensures var slots := StaleSlots(c, p, stale, c.slotsPerPage);
      var newPlaces := SlotPlaces(c, p, c.slotsPerPage);
      && slots.Keys == newPlaces.Keys
      && (forall a :: a in newPlaces ==> IsSlot(c, p, c.slotsPerPage, a, newPlaces[a]) && !slots[a].live)
      && PageSlotsPlaced(newPlaces, c, p)
      && SlotUse(slots, c, p, pg, [])
  {
    hide GeometryOK, SlotAddress;
    NewPageSlots(c, p, stale, c.slotsPerPage);
    hide SlotPlaces, StaleSlots, IsSlot;
    forall i | 0 <= i < c.slotsPerPage
      ensures var a := SlotAddress(c.slotStride, c.headerOffset, p, i);
        a in SlotPlaces(c, p, c.slotsPerPage) && SlotPlaces(c, p, c.slotsPerPage)[a] == SlotPlace(p, i)
    {
      NewPageSlotsPlaced(c, p, c.slotsPerPage, i);
    }
  }

  const EMPTY_PAGE_BYTES: nat := SLAB_PAGE_BYTES + ADDRESS_PAGE_BYTES - 1

  /** Rounding the raw block up to an address page leaves room for the whole slab page. */
  lemma SlabPageLayout(base: nat)
    requires 0 < base && base + EMPTY_PAGE_BYTES <= WORD_LIMIT
    ensures base < WORD_LIMIT
    ensures var p := AlignUp(base, ADDRESS_PAGE_BYTES);
      p % ADDRESS_PAGE_BYTES == 0 && base <= p && p + SLAB_PAGE_BYTES <= base + EMPTY_PAGE_BYTES
  {
    assert Pow2(6) == 64;
    assert Pow2(12) == 4096;
    PowerOfTwoTest(ADDRESS_PAGE_BYTES);
    hide AlignUp, IsPowerOfTwo;
    AlignUpIsLeastMultiple(base, ADDRESS_PAGE_BYTES);
  }

  lemma NewPageIsClear(c: SlabClass, p: nat, h: Headers, places: Places, pages: Pages, classes: Classes, byKey: map<nat, nat>,
                       free: map<nat, seq<nat>>, blocks: Blocks, base: nat, size: nat, slots: Headers)
    requires GeometryOK(c) && FreshRange(base, size, blocks) && base <= p && p + SLAB_PAGE_BYTES <= base + size
    requires PlacesOK(h, places, pages, classes, blocks) && PagesOK(h, pages, classes, free, blocks) && ClassesOK(classes, byKey)
    requires slots.Keys == SlotPlaces(c, p, c.slotsPerPage).Keys
    requires forall a :: a in SlotPlaces(c, p, c.slotsPerPage) ==> IsSlot(c, p, c.slotsPerPage, a, SlotPlaces(c, p, c.slotsPerPage)[a])
    ensures slots.Keys !! h.Keys
    ensures p !in pages
  {
    hide GeometryOK, SlotPlaces, PlacesOK, ClassesOK;
    PlacesKeys(h, places, pages, classes, blocks);
    forall a | a in slots
      ensures base <= a < base + size
    {
      var place := SlotPlaces(c, p, c.slotsPerPage)[a];
      assert IsSlot(c, p, c.slotsPerPage, a, place);
      SlotInPage(c, p, place.index);
    }
    forall a | a in h
      ensures !(base <= a < base + size)
    {
      HeaderInsideBlock(a, h, places, pages, classes, free, blocks, byKey);
    }
    forall q | q in pages
      ensures q != p
    {
      assert PageGeometryOK(q, pages[q], classes, blocks);
    }
  }

  lemma NewPageKeepsPages(h: Headers, slots: Headers, p: nat, pg: SlabPage, pages: Pages, classes: Classes, free: map<nat, seq<nat>>,
                          blocks: Blocks, size: nat)
    requires PagesOK(h, pages, classes, free, blocks)
    requires slots.Keys !! h.Keys && p !in pages && pg.allocationBase !in blocks
    requires pg.slabClass < |classes|
    requires pg == SlabPage(pg.slabClass, pg.allocationBase, 0, 0, 0, 0, 0)
    requires p % ADDRESS_PAGE_BYTES == 0 && pg.allocationBase <= p && p + SLAB_PAGE_BYTES <= pg.allocationBase + size
    requires var c := classes[pg.slabClass]; SlotUse(slots, c, p, pg, [])
    ensures PagesOK(h + slots, pages[p := pg], classes, free[p := []], blocks[pg.allocationBase := Block(size, PageBlock(p))])
  {
    hide SlotAddress;
    var h' := h + slots;
    var blocks' := blocks[pg.allocationBase := Block(size, PageBlock(p))];
    forall q | q in pages
      ensures PageGeometryOK(q, pages[q], classes, blocks')
      ensures PageOK(h', classes[pages[q].slabClass], q, pages[q], free[q])
    {
      assert PageGeometryOK(q, pages[q], classes, blocks);
      hide PageGeometryOK;
      var c := classes[pages[q].slabClass];
      assert PageOK(h, c, q, pages[q], free[q]);
      PageFrame(h, h', c, c, q, pages[q], pages[q], free[q]);
    }
    assert PageOK(h', classes[pg.slabClass], p, pg, []);
  }

  lemma FreshSlotPlace(a: nat, hd: AllocationHeader, place: Place, p: nat, pages: Pages, classes: Classes, blocks: Blocks)
    requires p != 0 && p in pages && pages[p].slabClass < |classes| && !hd.live
    requires IsSlot(classes[pages[p].slabClass], p, classes[pages[p].slabClass].slotsPerPage, a, place)
    ensures PlaceOK(a, hd, place, pages, classes, blocks)
  {
  }

  lemma OldPlace(a: nat, hd: AllocationHeader, place: Place, p: nat, pg: SlabPage, pages: Pages, classes: Classes, blocks: Blocks,
                 base: nat, block: Block)
    requires PlaceOK(a, hd, place, pages, classes, blocks)
    requires p !in pages && base !in blocks
    ensures PlaceOK(a, hd, place, pages[p := pg], classes, blocks[base := block])
  {
    hide SlotAddress, HeaderOK;
  }

  lemma NewPageKeepsPlaces(h: Headers, slots: Headers, p: nat, pg: SlabPage, places: Places, newPlaces: Places, pages: Pages,
                           classes: Classes, blocks: Blocks, size: nat)
    requires PlacesOK(h, places, pages, classes, blocks) && SlotsPlaced(places, pages, classes)
    requires BlocksOwned(blocks, places, pages)
    requires slots.Keys !! h.Keys && slots.Keys == newPlaces.Keys && p !in pages && pg.allocationBase !in blocks && p != 0
    requires pg.slabClass < |classes|
    requires PageSlotsPlaced(newPlaces, classes[pg.slabClass], p)
    requires forall a :: a in newPlaces ==>
      IsSlot(classes[pg.slabClass], p, classes[pg.slabClass].slotsPerPage, a, newPlaces[a]) && !slots[a].live
    ensures PlacesOK(h + slots, places + newPlaces, pages[p := pg], classes, blocks[pg.allocationBase := Block(size, PageBlock(p))])
    ensures SlotsPlaced(places + newPlaces, pages[p := pg], classes)
    ensures BlocksOwned(blocks[pg.allocationBase := Block(size, PageBlock(p))], places + newPlaces, pages[p := pg])
  {
    hide IsSlot, PlaceOK, PageSlotsPlaced;
    var h' := h + slots;
    var places' := places + newPlaces;
    var pages' := pages[p := pg];
    var blocks' := blocks[pg.allocationBase := Block(size, PageBlock(p))];
    forall a | a in places'
      ensures PlaceOK(a, h'[a], places'[a], pages', classes, blocks')
    {
      if a in newPlaces {
        FreshSlotPlace(a, slots[a], newPlaces[a], p, pages', classes, blocks');
      } else {
        OldPlace(a, h[a], places[a], p, pg, pages, classes, blocks, pg.allocationBase, Block(size, PageBlock(p)));
      }
    }
    NewPageKeepsSlots(places, newPlaces, p, pg, pages, classes);
    NewPageKeepsOwners(places, newPlaces, p, pg, pages, blocks, Block(size, PageBlock(p)));
  }

  lemma NewPageKeepsOwners(places: Places, newPlaces: Places, p: nat, pg: SlabPage, pages: Pages, blocks: Blocks, block: Block)
    requires BlocksOwned(blocks, places, pages) && p !in pages && block.owner == PageBlock(p)
    requires places.Keys !! newPlaces.Keys
    ensures BlocksOwned(blocks[pg.allocationBase := block], places + newPlaces, pages[p := pg])
  {
  }

  lemma NewPageKeepsSlots(places: Places, newPlaces: Places, p: nat, pg: SlabPage, pages: Pages, classes: Classes)
    requires SlotsPlaced(places, pages, classes) && places.Keys !! newPlaces.Keys
    requires pg.slabClass < |classes| && PageSlotsPlaced(newPlaces, classes[pg.slabClass], p)
    ensures SlotsPlaced(places + newPlaces, pages[p := pg], classes)
  {
    hide SlotAddress;
    var places' := places + newPlaces;
    var pages' := pages[p := pg];
    forall q | q in pages'
      ensures pages'[q].slabClass < |classes| && PageSlotsPlaced(places', classes[pages'[q].slabClass], q)
    {
      if q != p {
        assert PageSlotsPlaced(places, classes[pages[q].slabClass], q);
      }
    }
  }

  lemma NewPageUnlisted(pages: Pages, classes: Classes, nonFull: seq<seq<nat>>, p: nat, pg: SlabPage)
    requires NonFullOK(pages, classes, nonFull, 0)
    requires p !in pages && p != 0 && pg.slabClass < |classes| && pg.prevNonFull == 0 && pg.nextNonFull == 0
    ensures NonFullOK(pages[p := pg], classes, nonFull, p)
    ensures !Listed(pages[p := pg], nonFull, p)
  {
    var pages' := pages[p := pg];
    forall k | 0 <= k < |classes|
      ensures ClassList(pages', nonFull[k], k, classes[k].nonFullPages)
      ensures p !in nonFull[k]
    {
      assert ClassList(pages, nonFull[k], k, classes[k].nonFullPages);
      hide PageList;
      PageListFrame(pages, pages', nonFull[k], classes[k].nonFullPages);
    }
    hide ClassList;
    forall q | q in pages'
      ensures PageListed(pages', classes, nonFull, q, p)
    {
      if q != p {
        assert PageListed(pages, classes, nonFull, q, 0);
      } else {
        assert p !in nonFull[pg.slabClass];
      }
    }
  }

  lemma NewPageKeepsActive(h: Headers, slots: Headers, s: seq<nat>, head: nat)
    requires ActiveList(h, s, head) && LiveIffActive(h, s)
    requires slots.Keys !! h.Keys && forall a :: a in slots ==> !slots[a].live
    ensures ActiveList(h + slots, s, head) && LiveIffActive(h + slots, s)
    ensures KeepsHeaders(h, h + slots, s)
  {
    hide NoDuplicates;
    var h' := h + slots;
    forall i | 0 <= i < |s|
      ensures LinkedAt(h', s, i)
    {
      assert LinkedAt(h, s, i);
    }
  }

  lemma NewPageKeepsSystemMap(sysMap: map<nat, seq<nat>>, h: Headers, slots: Headers, places: Places, newPlaces: Places,
                              pages: Pages, classes: Classes, blocks: Blocks)
    requires SystemMapOK(sysMap, h, places) && PlacesOK(h, places, pages, classes, blocks)
    requires slots.Keys !! h.Keys && slots.Keys == newPlaces.Keys && forall a :: a in newPlaces ==> newPlaces[a].SlotPlace?
    ensures SystemMapOK(sysMap, h + slots, places + newPlaces)
  {
    hide NoDuplicates, Covers, PlaceOK;
    forall key | key in sysMap
      ensures BucketOK(sysMap[key], key, h + slots, places + newPlaces)
    {
      assert BucketOK(sysMap[key], key, h, places);
    }
  }

  /** Two slab pages never share an address. */
  lemma SlabPagesApart(p: nat, q: nat, h: Headers, pages: Pages, classes: Classes, free: map<nat, seq<nat>>, blocks: Blocks)
    requires p in pages && q in pages && p != q
    requires PagesOK(h, pages, classes, free, blocks) && BlocksApart(blocks)
    ensures p + SLAB_PAGE_BYTES <= q || q + SLAB_PAGE_BYTES <= p
  {
    hide PageOK;
    assert PageGeometryOK(p, pages[p], classes, blocks);
    assert PageGeometryOK(q, pages[q], classes, blocks);
  }

  ghost predicate SlabMapped(slabMap: map<nat, nat>, slabMap': map<nat, nat>, p: nat, lo: nat, hi: nat) {
    forall key: nat ::
      if lo <= key < hi then key in slabMap' && slabMap'[key] == p
      else (key in slabMap' <==> key in slabMap) && (key in slabMap ==> slabMap'[key] == slabMap[key])
  }

  lemma NewPageKeepsSlabMap(slabMap: map<nat, nat>, slabMap': map<nat, nat>, p: nat, pg: SlabPage, h: Headers, pages: Pages,
                            classes: Classes, free: map<nat, seq<nat>>, blocks: Blocks)
    requires SlabMapOK(slabMap, pages) && p !in pages
    requires PagesOK(h, pages[p := pg], classes, free, blocks) && BlocksApart(blocks)
    requires SlabMapped(slabMap, slabMap', p, p / ADDRESS_PAGE_BYTES, p / ADDRESS_PAGE_BYTES + SLAB_ADDRESS_PAGES)
    ensures SlabMapOK(slabMap', pages[p := pg])
  {
    NewPageSpansApart(p, pg, h, pages, classes, free, blocks);
    hide PagesOK, BlocksApart, OnSlabPage;
    OnPageRange(p);
    forall key: nat, q: nat | q in pages[p := pg] && OnSlabPage(key, q)
      ensures key in slabMap' && slabMap'[key] == q
    {
      assert q != p ==> key in slabMap && slabMap[key] == q && !OnSlabPage(key, p);
    }
  }

  lemma OnPageRange(p: nat)
    ensures forall key: nat :: OnSlabPage(key, p) <==> p / ADDRESS_PAGE_BYTES <= key < p / ADDRESS_PAGE_BYTES + SLAB_ADDRESS_PAGES
  {
  }

  lemma NewPageSpansApart(p: nat, pg: SlabPage, h: Headers, pages: Pages, classes: Classes, free: map<nat, seq<nat>>, blocks: Blocks)
    requires p !in pages
    requires PagesOK(h, pages[p := pg], classes, free, blocks) && BlocksApart(blocks)
    ensures forall q, key :: q in pages && OnSlabPage(key, q) ==> !OnSlabPage(key, p)
  {
    var pages' := pages[p := pg];
    hide PageOK, BlocksApart;
    assert p % ADDRESS_PAGE_BYTES == 0 by {
      assert PageGeometryOK(p, pages'[p], classes, blocks);
    }
    forall q | q in pages
      ensures (p + SLAB_PAGE_BYTES <= q || q + SLAB_PAGE_BYTES <= p) && q % ADDRESS_PAGE_BYTES == 0
    {
      assert PageGeometryOK(q, pages'[q], classes, blocks);
      SlabPagesApart(p, q, h, pages', classes, free, blocks);
    }
    hide PagesOK;
  }

  // ----- Changing one slot of one page -----

  /** A change confined to slot k of page p: header a = slot k, page record and free list of p. */
  lemma OtherPagesKept(h: Headers, h': Headers, a: nat, k: nat, p: nat, pg': SlabPage, f': seq<nat>, places: Places, pages: Pages,
                       classes: Classes, free: map<nat, seq<nat>>, blocks: Blocks)
    requires PagesOK(h, pages, classes, free, blocks) && SlotsPlaced(places, pages, classes)
    requires p in pages && a in places && places[a] == SlotPlace(p, k)
    requires h.Keys == h'.Keys && forall x :: x in h && x != a ==> h'[x] == h[x]
    requires pg'.slabClass == pages[p].slabClass && pg'.allocationBase == pages[p].allocationBase
    requires pg'.slabClass < |classes| && PageOK(h', classes[pg'.slabClass], p, pg', f')
    ensures PagesOK(h', pages[p := pg'], classes, free[p := f'], blocks)
  {
    hide SlotAddress;
    forall q | q in pages && q != p
      ensures PageOK(h', classes[pages[q].slabClass], q, pages[q], free[q])
    {
      assert PageGeometryOK(q, pages[q], classes, blocks);
      var c := classes[pages[q].slabClass];
      assert PageSlotsPlaced(places, c, q);
      assert PageOK(h, c, q, pages[q], free[q]);
      hide PageGeometryOK;
      PageFrame(h, h', c, c, q, pages[q], pages[q], free[q]);
    }
    assert PageGeometryOK(p, pages[p], classes, blocks);
    assert PageGeometryOK(p, pg', classes, blocks);
    hide PageGeometryOK, PageOK;
  }

  lemma SlotChangeKeepsPlaces(h: Headers, h': Headers, a: nat, p: nat, pg': SlabPage, places: Places, pages: Pages, classes: Classes, blocks: Blocks)
    requires PlacesOK(h, places, pages, classes, blocks) && SlotsPlaced(places, pages, classes) && BlocksOwned(blocks, places, pages)
    requires p in pages && a in places && places[a].SlotPlace? && places[a].page == p
    requires h.Keys == h'.Keys && forall x :: x in h && x != a ==> h'[x] == h[x]
    requires pg'.slabClass == pages[p].slabClass && pg'.allocationBase == pages[p].allocationBase
    requires pg'.slabClass < |classes|
    requires h'[a].live ==> HeaderOK(h'[a]) && h'[a].storageKind == SlabStorage
    requires h'[a].live ==> h'[a].storageOwner == p && h'[a].payloadSize == Max(classes[pg'.slabClass].payloadSize, 1)
    ensures PlacesOK(h', places, pages[p := pg'], classes, blocks)
    ensures SlotsPlaced(places, pages[p := pg'], classes)
    ensures BlocksOwned(blocks, places, pages[p := pg'])
  {
    hide SlotAddress, HeaderOK;
    var pages' := pages[p := pg'];
    forall x | x in places
      ensures PlaceOK(x, h'[x], places[x], pages', classes, blocks)
    {
      assert PlaceOK(x, h[x], places[x], pages, classes, blocks);
    }
    hide PlaceOK;
    forall q | q in pages'
      ensures pages'[q].slabClass < |classes| && PageSlotsPlaced(places, classes[pages'[q].slabClass], q)
    {
      assert PageSlotsPlaced(places, classes[pages[q].slabClass], q);
    }
    hide PageSlotsPlaced;
    BlocksOwnedFrame(blocks, places, pages, pages');
  }

  lemma SlotChangeKeepsSystemMap(sysMap: map<nat, seq<nat>>, h: Headers, h': Headers, a: nat, places: Places)
    requires SystemMapOK(sysMap, h, places)
    requires a in places && places[a].SlotPlace?
    requires h.Keys == h'.Keys && forall x :: x in h && x != a ==> h'[x] == h[x]
    ensures SystemMapOK(sysMap, h', places)
  {
    hide NoDuplicates, Covers;
    forall key | key in sysMap
      ensures BucketOK(sysMap[key], key, h', places)
    {
      assert BucketOK(sysMap[key], key, h, places);
    }
  }

  /** Page records may change in everything but class, base and list links. */
  lemma PageChangeKeepsLists(pages: Pages, classes: Classes, nonFull: seq<seq<nat>>, p: nat, pg': SlabPage, slabMap: map<nat, nat>)
    requires NonFullOK(pages, classes, nonFull, 0) && SlabMapOK(slabMap, pages)
    requires p in pages && pg'.slabClass == pages[p].slabClass
    requires pg'.prevNonFull == pages[p].prevNonFull && pg'.nextNonFull == pages[p].nextNonFull
    ensures NonFullOK(pages[p := pg'], classes, nonFull, p)
    ensures SlabMapOK(slabMap, pages[p := pg'])
  {
    var pages' := pages[p := pg'];
    hide PageList, OnSlabPage;
    forall k | 0 <= k < |classes|
      ensures ClassList(pages', nonFull[k], k, classes[k].nonFullPages)
    {
      assert ClassList(pages, nonFull[k], k, classes[k].nonFullPages);
      PageListFrame(pages, pages', nonFull[k], classes[k].nonFullPages);
    }
    hide ClassList;
    forall q | q in pages'
      ensures PageListed(pages', classes, nonFull, q, p)
    {
      assert PageListed(pages, classes, nonFull, q, 0);
    }
  }

  lemma HeaderChangeKeepsActive(h: Headers, h': Headers, a: nat, s: seq<nat>, head: nat)
    requires ActiveList(h, s, head)
    requires a !in s && h.Keys == h'.Keys && forall x :: x in h && x != a ==> h'[x] == h[x]
    ensures ActiveList(h', s, head)
  {
    hide NoDuplicates;
    forall i | 0 <= i < |s|
      ensures LinkedAt(h', s, i)
    {
      assert LinkedAt(h, s, i);
    }
  }

  // ----- Taking a slot -----

  /** Popping the free list hands out its first slot. */
  lemma PoppedPage(h: Headers, hd: AllocationHeader, c: SlabClass, p: nat, pg: SlabPage, f: seq<nat>)
    requires GeometryOK(c) && PageOK(h, c, p, pg, f) && pg.freeList != 0 && hd.live
    ensures f != [] && pg.freeList in h && f[0] < c.slotsPerPage
    ensures pg.freeList == SlotAddress(c.slotStride, c.headerOffset, p, f[0])
    ensures !h[pg.freeList].live
    ensures PageOK(h[pg.freeList := hd], c, p, pg.(freeList := h[pg.freeList].next, liveCount := pg.liveCount + 1), f[1..])
  {
    var a := pg.freeList;
    hide GeometryOK, SlotAddress;
    assert f[0] in f;
    assert f == [f[0]] + f[1..];
    forall i | 0 <= i < c.slotsPerPage && i != f[0]
      ensures SlotAddress(c.slotStride, c.headerOffset, p, i) != a
    {
      DistinctSlots(c, p, i, f[0]);
    }
    forall i | i in f[1..]
      ensures i in f && i != f[0]
    {
    }
    assert SlotAddress(c.slotStride, c.headerOffset, p, f[0]) == a;
    FreeChainFrame(h, h[a := hd], c, c, p, f[1..], h[a].next);
    assert NoDuplicates(f[1..]);
    assert forall i :: i in f <==> i == f[0] || i in f[1..];
  }

  lemma DistinctSlots(c: SlabClass, p: nat, i: nat, j: nat)
    requires GeometryOK(c) && i != j
    ensures SlotAddress(c.slotStride, c.headerOffset, p, i) != SlotAddress(c.slotStride, c.headerOffset, p, j)
  {
    if i < j { SlotAddressesApart(c, p, i, j); } else { SlotAddressesApart(c, p, j, i); }
  }

  lemma ChainFromNullIsEmpty(h: Headers, c: SlabClass, p: nat, f: seq<nat>)
    requires FreeChain(h, c, p, f, 0) && p != 0
    ensures f == []
  {
  }

  /** With an empty free list the first slot never used is handed out. */
  lemma BumpedPage(h: Headers, hd: AllocationHeader, c: SlabClass, p: nat, pg: SlabPage, f: seq<nat>)
    requires GeometryOK(c) && PageOK(h, c, p, pg, f) && pg.freeList == 0 && p != 0
    requires pg.nextUnusedSlot < c.slotsPerPage && hd.live
    ensures var a := SlotAddress(c.slotStride, c.headerOffset, p, pg.nextUnusedSlot);
      a in h && !h[a].live
      && PageOK(h[a := hd], c, p, pg.(nextUnusedSlot := pg.nextUnusedSlot + 1, liveCount := pg.liveCount + 1), [])
    ensures f == []
  {
    var a := SlotAddress(c.slotStride, c.headerOffset, p, pg.nextUnusedSlot);
    ChainFromNullIsEmpty(h, c, p, f);
    hide GeometryOK, SlotAddress;
    forall i | 0 <= i < c.slotsPerPage && i != pg.nextUnusedSlot
      ensures SlotAddress(c.slotStride, c.headerOffset, p, i) != a
    {
      DistinctSlots(c, p, i, pg.nextUnusedSlot);
    }
  }

  lemma MapOneMore(slabMap: map<nat, nat>, m: map<nat, nat>, p: nat, lo: nat, hi: nat)
    requires lo <= hi && SlabMapped(slabMap, m, p, lo, hi)
    ensures SlabMapped(slabMap, m[hi := p], p, lo, hi + 1)
  {
  }

  /** A page carved from a fresh block joins the registry; list and table come next. */
  lemma AddSlabPage(h: Headers, s: seq<nat>, head: nat, places: Places, pages: Pages, classes: Classes, byKey: map<nat, nat>,
                    free: map<nat, seq<nat>>, blocks: Blocks, sysMap: map<nat, seq<nat>>, nonFull: seq<seq<nat>>,
                    p: nat, pg: SlabPage, stale: nat -> AllocationHeader)
    requires ActiveList(h, s, head) && LiveIffActive(h, s) && ClassesOK(classes, byKey)
    requires PagesOK(h, pages, classes, free, blocks) && PlacesOK(h, places, pages, classes, blocks)
    requires SlotsPlaced(places, pages, classes) && BlocksOwned(blocks, places, pages) && SystemMapOK(sysMap, h, places)
    requires NonFullOK(pages, classes, nonFull, 0)
    requires pg == SlabPage(pg.slabClass, pg.allocationBase, 0, 0, 0, 0, 0) && pg.slabClass < |classes|
    requires FreshRange(pg.allocationBase, EMPTY_PAGE_BYTES, blocks) && pg.allocationBase !in blocks
    requires p % ADDRESS_PAGE_BYTES == 0 && pg.allocationBase <= p && p + SLAB_PAGE_BYTES <= pg.allocationBase + EMPTY_PAGE_BYTES
    requires forall a: nat {:trigger stale(a)} :: !stale(a).live
    ensures p != 0 && p !in pages
    ensures var c := classes[pg.slabClass];
      var h' := h + StaleSlots(c, p, stale, c.slotsPerPage);
      var places' := places + SlotPlaces(c, p, c.slotsPerPage);
      var pages' := pages[p := pg];
      var blocks' := blocks[pg.allocationBase := Block(EMPTY_PAGE_BYTES, PageBlock(p))];
      && ActiveList(h', s, head) && LiveIffActive(h', s) && KeepsHeaders(h, h', s)
      && PagesOK(h', pages', classes, free[p := []], blocks')
      && PlacesOK(h', places', pages', classes, blocks')
      && SlotsPlaced(places', pages', classes) && BlocksOwned(blocks', places', pages')
      && SystemMapOK(sysMap, h', places')
      && NonFullOK(pages', classes, nonFull, p) && !Listed(pages', nonFull, p)
  {
    var c := classes[pg.slabClass];
    var slots := StaleSlots(c, p, stale, c.slotsPerPage);
    var newPlaces := SlotPlaces(c, p, c.slotsPerPage);
    assert c in classes;
    WholePageSlots(c, p, pg, stale);
    hide ActiveList, LiveIffActive, PagesOK, PlacesOK, SlotsPlaced, BlocksOwned, SystemMapOK, NonFullOK, StaleSlots, SlotPlaces,
      SlotUse, PageSlotsPlaced, Listed, KeepsHeaders;
    NewPageIsClear(c, p, h, places, pages, classes, byKey, free, blocks, pg.allocationBase, EMPTY_PAGE_BYTES, slots);
    hide GeometryOK, ClassesOK, FreshRange;
    NewPageKeepsPages(h, slots, p, pg, pages, classes, free, blocks, EMPTY_PAGE_BYTES);
    NewPageKeepsPlaces(h, slots, p, pg, places, newPlaces, pages, classes, blocks, EMPTY_PAGE_BYTES);
    NewPageUnlisted(pages, classes, nonFull, p, pg);
    NewPageKeepsActive(h, slots, s, head);
    NewPageKeepsSystemMap(sysMap, h, slots, places, newPlaces, pages, classes, blocks);
  }

  /** The slot a page hands out next, and the page record and free list afterwards. */
  ghost predicate SlotTaken(h: Headers, hd: AllocationHeader, c: SlabClass, p: nat, pg: SlabPage, f: seq<nat>,
                            a: nat, k: nat, pg': SlabPage, f': seq<nat>) {
    && k < c.slotsPerPage && a == SlotAddress(c.slotStride, c.headerOffset, p, k)
    && a in h && !h[a].live
    && PageOK(h[a := hd], c, p, pg', f')
    && pg' == pg.(nextUnusedSlot := pg'.nextUnusedSlot, liveCount := pg.liveCount + 1, freeList := pg'.freeList)
  }

  lemma TakenSlotKeepsRegistry(h: Headers, hd: AllocationHeader, s: seq<nat>, head: nat, places: Places, pages: Pages, classes: Classes,
                               free: map<nat, seq<nat>>, blocks: Blocks, sysMap: map<nat, seq<nat>>, nonFull: seq<seq<nat>>,
                               slabMap: map<nat, nat>, p: nat, a: nat, k: nat, pg': SlabPage, f': seq<nat>)
    requires ActiveList(h, s, head) && LiveIffActive(h, s)
    requires PagesOK(h, pages, classes, free, blocks) && PlacesOK(h, places, pages, classes, blocks)
    requires SlotsPlaced(places, pages, classes) && BlocksOwned(blocks, places, pages) && SystemMapOK(sysMap, h, places)
    requires NonFullOK(pages, classes, nonFull, 0) && SlabMapOK(slabMap, pages)
    requires p in pages && pages[p].slabClass < |classes| && p in free
    requires SlotTaken(h, hd, classes[pages[p].slabClass], p, pages[p], free[p], a, k, pg', f')
    requires HeaderOK(hd) && hd.live && hd.storageKind == SlabStorage && hd.storageOwner == p
    requires hd.payloadSize == Max(classes[pages[p].slabClass].payloadSize, 1)
    ensures a !in s && a != 0
    ensures ActiveList(h[a := hd], s, head) && LiveIffActive(h[a := hd], [a] + s)
    ensures PagesOK(h[a := hd], pages[p := pg'], classes, free[p := f'], blocks)
    ensures PlacesOK(h[a := hd], places, pages[p := pg'], classes, blocks)
    ensures SlotsPlaced(places, pages[p := pg'], classes) && BlocksOwned(blocks, places, pages[p := pg'])
    ensures SystemMapOK(sysMap, h[a := hd], places)
    ensures NonFullOK(pages[p := pg'], classes, nonFull, p) && SlabMapOK(slabMap, pages[p := pg'])
  {
    hide *;
    TakenSlotIsNew(h, hd, s, places, pages, classes, blocks, p, a, k, pg', free[p], f');
    OtherPagesKept(h, h[a := hd], a, k, p, pg', f', places, pages, classes, free, blocks);
    SlotChangeKeepsPlaces(h, h[a := hd], a, p, pg', places, pages, classes, blocks);
    SlotChangeKeepsSystemMap(sysMap, h, h[a := hd], a, places);
    PageChangeKeepsLists(pages, classes, nonFull, p, pg', slabMap);
    HeaderChangeKeepsActive(h, h[a := hd], a, s, head);
  }

  lemma TakenSlotIsNew(h: Headers, hd: AllocationHeader, s: seq<nat>, places: Places, pages: Pages, classes: Classes, blocks: Blocks,
                       p: nat, a: nat, k: nat, pg': SlabPage, f: seq<nat>, f': seq<nat>)
    requires LiveIffActive(h, s) && PlacesOK(h, places, pages, classes, blocks) && SlotsPlaced(places, pages, classes)
    requires p in pages && pages[p].slabClass < |classes|
    requires SlotTaken(h, hd, classes[pages[p].slabClass], p, pages[p], f, a, k, pg', f') && hd.live
    ensures a in h && a !in s && a != 0 && a in places && places[a] == SlotPlace(p, k)
    ensures LiveIffActive(h[a := hd], [a] + s)
    ensures PageOK(h[a := hd], classes[pages[p].slabClass], p, pg', f')
    ensures pg' == pages[p].(nextUnusedSlot := pg'.nextUnusedSlot, liveCount := pages[p].liveCount + 1, freeList := pg'.freeList)
    ensures h[a := hd].Keys == h.Keys
  {
    hide SlotAddress, PageOK, HeaderOK;
    SlotIsPlaced(places, pages, classes, p, k);
    hide SlotsPlaced;
    assert PlaceOK(a, h[a], places[a], pages, classes, blocks);
  }

  lemma SlotIsPlaced(places: Places, pages: Pages, classes: Classes, p: nat, k: nat)
    requires SlotsPlaced(places, pages, classes) && p in pages && pages[p].slabClass < |classes|
    requires k < classes[pages[p].slabClass].slotsPerPage
    ensures var c := classes[pages[p].slabClass];
      var a := SlotAddress(c.slotStride, c.headerOffset, p, k);
      a in places && places[a] == SlotPlace(p, k)
  {
    assert PageSlotsPlaced(places, classes[pages[p].slabClass], p);
  }

  /** Payloads of a slab class are aligned as the class promises. */
  lemma SlotPayloadIsAligned(c: SlabClass, p: nat, k: nat)
    requires GeometryOK(c) && p % ADDRESS_PAGE_BYTES == 0
    ensures IsMultiple(SlotAddress(c.slotStride, c.headerOffset, p, k) + HEADER_BYTES, c.alignment)
  {
    PageIsAligned(p, c.alignment);
    SlotOffsetAligned(c.slotStride, c.alignment, k);
    SumIsMultiple(p, SlotOffset(c.slotStride, k), c.alignment);
    SumIsMultiple(p + SlotOffset(c.slotStride, k), c.headerOffset + HEADER_BYTES, c.alignment);
  }

  lemma PageIsAligned(p: nat, alignment: nat)
    requires IsSlabAlignment(alignment) && p % ADDRESS_PAGE_BYTES == 0
    ensures IsMultiple(p, alignment)
  {
    var q := p / ADDRESS_PAGE_BYTES;
    var times: nat := if alignment == 8 then 512 * q else if alignment == 16 then 256 * q else if alignment == 32 then 128 * q else 64 * q;
    MultipleOf(alignment, times);
    assert alignment * times == p;
  }

  lemma {:induction false} SlotOffsetAligned(stride: nat, alignment: nat, k: nat)
    requires IsSlabAlignment(alignment) && IsMultiple(stride, alignment)
    ensures IsMultiple(SlotOffset(stride, k), alignment)
  {
    if k != 0 {
      hide IsMultiple, IsSlabAlignment;
      SlotOffsetAligned(stride, alignment, k - 1);
      SumIsMultiple(SlotOffset(stride, k - 1), stride, alignment);
    }
  }

  lemma PageFacts(h: Headers, pages: Pages, classes: Classes, byKey: map<nat, nat>, free: map<nat, seq<nat>>, blocks: Blocks,
                  nonFull: seq<seq<nat>>, p: nat)
    requires PagesOK(h, pages, classes, free, blocks) && ClassesOK(classes, byKey) && NonFullOK(pages, classes, nonFull, 0) && p in pages
    ensures p != 0 && p % ADDRESS_PAGE_BYTES == 0 && p in free && pages[p].slabClass < |classes|
    ensures GeometryOK(classes[pages[p].slabClass])
    ensures PageOK(h, classes[pages[p].slabClass], p, pages[p], free[p])
    ensures Listed(pages, nonFull, p) <==> HasFreeSlots(pages[p], classes)
  {
    assert PageGeometryOK(p, pages[p], classes, blocks);
    assert PageListed(pages, classes, nonFull, p, 0);
    assert classes[pages[p].slabClass] in classes;
  }

  lemma NewSlotHeaderOK(payloadSize: Word, typeDescriptor: Option<Descriptor>, p: nat)
    requires DescriptorFits(ObjectKind, 1, payloadSize, typeDescriptor)
    ensures HeaderOK(NewHeader(ObjectKind, SlabStorage, payloadSize, 1, typeDescriptor, p))
  {
  }

  lemma KeptFreeSlots(pages: Pages, pages': Pages, classes: Classes, classes': Classes, p: nat)
    requires SamePagesOffLinks(pages, pages') && SameGeometry(classes, classes')
    requires p in pages && pages[p].slabClass < |classes|
    ensures p in pages' && pages'[p].slabClass == pages[p].slabClass
    ensures HasFreeSlots(pages'[p], classes') == HasFreeSlots(pages[p], classes)
  {
    assert PageCore(pages'[p]) == PageCore(pages[p]);
  }

  lemma AddedAfterKeeping(h0: Headers, h1: Headers, h2: Headers, s: seq<nat>, s': seq<nat>, added: Allocation)
    requires KeepsHeaders(h0, h1, s) && Added(h1, s, h2, s', added)
    ensures Added(h0, s, h2, s', added)
  {
  }
}
