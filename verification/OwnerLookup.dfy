/** Lemmas about which allocation owns an address: allocations never overlap, and the
    page-indexed lookup agrees with a linear search of the active list. */
module OwnerLookup {
  import opened MachineWords
  import opened HeapModel
  import opened HeapInvariant
  import opened HeapLemmas
  import opened PageTables
  import opened SlabAllocation

  /** The last payload address, saturating at the end of the address space. */
  function AllocationLastAddress(payloadAddress: nat, payloadSize: nat): nat
    requires payloadSize >= 1
  {
    var offset := payloadSize - 1;
    if payloadAddress > WORD_LIMIT - 1 - offset then WORD_LIMIT - 1 else payloadAddress + offset
  }

  predicate PayloadContains(h: AllocationHeader, a: nat, address: nat) {
    PayloadAddress(a) <= address < PayloadAddress(a) + h.payloadSize
  }

  // ----- Disjointness -----

  lemma SystemsApart(a: nat, b: nat, h: Headers, places: Places, pages: Pages, classes: Classes, blocks: Blocks)
    requires PlacesOK(h, places, pages, classes, blocks) && BlocksApart(blocks)
    requires a in places && b in places && a != b && places[a].SystemPlace? && places[b].SystemPlace?
    ensures a + HEADER_BYTES + h[a].payloadSize <= b || b + HEADER_BYTES + h[b].payloadSize <= a
  {
    hide SlotAddress;
    assert PlaceOK(a, h[a], places[a], pages, classes, blocks);
    assert PlaceOK(b, h[b], places[b], pages, classes, blocks);
  }

  lemma SlotsApart(a: nat, b: nat, h: Headers, places: Places, pages: Pages, classes: Classes, byKey: map<nat, nat>, blocks: Blocks)
    requires PlacesOK(h, places, pages, classes, blocks) && ClassesOK(classes, byKey)
    requires a in places && b in places && a != b && h[a].live && h[b].live
    requires places[a].SlotPlace? && places[b].SlotPlace? && places[a].page == places[b].page
    ensures a + HEADER_BYTES + h[a].payloadSize <= b || b + HEADER_BYTES + h[b].payloadSize <= a
  {
    hide SlotAddress, GeometryOK;
    assert PlaceOK(a, h[a], places[a], pages, classes, blocks);
    assert PlaceOK(b, h[b], places[b], pages, classes, blocks);
    var c := classes[pages[places[a].page].slabClass];
    assert c in classes;
    var p, i, j := places[a].page, places[a].index, places[b].index;
    if i < j { SlotAddressesApart(c, p, i, j); } else { SlotAddressesApart(c, p, j, i); }
  }

  lemma HomesApart(a: nat, b: nat, h: Headers, places: Places, pages: Pages, classes: Classes, byKey: map<nat, nat>,
                   free: map<nat, seq<nat>>, blocks: Blocks)
    requires PlacesOK(h, places, pages, classes, blocks) && PagesOK(h, pages, classes, free, blocks) && ClassesOK(classes, byKey)
    requires BlocksApart(blocks)
    requires a in places && b in places && h[a].live && h[b].live
    requires HomeBlock(places, pages, a) != HomeBlock(places, pages, b)
    ensures a + HEADER_BYTES + h[a].payloadSize <= b || b + HEADER_BYTES + h[b].payloadSize <= a
  {
    HeaderInsideBlock(a, h, places, pages, classes, free, blocks, byKey);
    HeaderInsideBlock(b, h, places, pages, classes, free, blocks, byKey);
    hide PlacesOK, PagesOK, ClassesOK, HomeBlock;
  }

  lemma SameHomeSamePlace(a: nat, b: nat, h: Headers, places: Places, pages: Pages, classes: Classes, free: map<nat, seq<nat>>, blocks: Blocks)
    requires PlacesOK(h, places, pages, classes, blocks) && PagesOK(h, pages, classes, free, blocks)
    requires a in places && b in places
    requires HomeBlock(places, pages, a) == HomeBlock(places, pages, b)
    ensures (places[a].SystemPlace? && places[b].SystemPlace?)
      || (places[a].SlotPlace? && places[b].SlotPlace? && places[a].page == places[b].page)
  {
    hide SlotAddress, PageOK, HeaderOK;
    assert PlaceOK(a, h[a], places[a], pages, classes, blocks);
    assert PlaceOK(b, h[b], places[b], pages, classes, blocks);
    assert forall q :: q in pages ==> PageGeometryOK(q, pages[q], classes, blocks);
  }

  /** Header and payload of two active allocations never overlap. */
  lemma AllocationsApart(a: nat, b: nat, h: Headers, s: seq<nat>, places: Places, pages: Pages, classes: Classes, byKey: map<nat, nat>,
                         free: map<nat, seq<nat>>, blocks: Blocks)
    requires LiveIffActive(h, s) && BlocksApart(blocks)
    requires PlacesOK(h, places, pages, classes, blocks) && PagesOK(h, pages, classes, free, blocks) && ClassesOK(classes, byKey)
    requires a in s && b in s && a != b
    ensures a in h && b in h
    ensures a + HEADER_BYTES + h[a].payloadSize <= b || b + HEADER_BYTES + h[b].payloadSize <= a
  {
    PlacesKeys(h, places, pages, classes, blocks);
    assert h[a].live && h[b].live;
    hide LiveIffActive, BlocksApart, PlacesOK, PagesOK, ClassesOK;
    if HomeBlock(places, pages, a) != HomeBlock(places, pages, b) {
      HomesApart(a, b, h, places, pages, classes, byKey, free, blocks);
    } else {
      SameHomeSamePlace(a, b, h, places, pages, classes, free, blocks);
      if places[a].SystemPlace? {
        SystemsApart(a, b, h, places, pages, classes, blocks);
      } else {
        SlotsApart(a, b, h, places, pages, classes, byKey, blocks);
      }
    }
  }

  // ----- The slab index -----

  /** The slot an address of a slab page falls in. */
  lemma SlotIndexOf(c: SlabClass, p: nat, i: nat, address: nat)
    requires GeometryOK(c)
    requires var a := SlotAddress(c.slotStride, c.headerOffset, p, i);
      PayloadAddress(a) <= address < PayloadAddress(a) + Max(c.payloadSize, 1)
    ensures address >= p && c.slotStride > 0 && (address - p) / c.slotStride == i
  {
    SlotOffsetIsProduct(c.slotStride, i);
    DivisionIsUnique(address - p, c.slotStride, i, address - p - SlotOffset(c.slotStride, i));
  }

  /** A live slot of page p owning the address is the slot the index computes. */
  lemma SlabOwnerIsIndexed(a: nat, address: nat, p: nat, h: Headers, places: Places, pages: Pages, classes: Classes, byKey: map<nat, nat>, blocks: Blocks)
    requires PlacesOK(h, places, pages, classes, blocks) && ClassesOK(classes, byKey)
    requires a in h && h[a].live && a in places && places[a].SlotPlace? && places[a].page == p
    requires PayloadContains(h[a], a, address)
    ensures p in pages && pages[p].slabClass < |classes|
    ensures var c := classes[pages[p].slabClass];
      c.slotStride > 0 && address >= p && (address - p) / c.slotStride < c.slotsPerPage
      && a == SlotAddress(c.slotStride, c.headerOffset, p, (address - p) / c.slotStride)
      && h[a].magic == ALLOCATION_MAGIC && h[a].storageKind == SlabStorage
  {
    hide SlotAddress, GeometryOK;
    assert PlaceOK(a, h[a], places[a], pages, classes, blocks);
    var c := classes[pages[p].slabClass];
    assert c in classes;
    SlotIndexOf(c, p, places[a].index, address);
  }

  /** Payload addresses of a slot lie on the address pages mapped to its slab page. */
  lemma SlabOwnerIsMapped(a: nat, address: nat, h: Headers, places: Places, pages: Pages, classes: Classes, byKey: map<nat, nat>,
                          free: map<nat, seq<nat>>, blocks: Blocks, slabMap: map<nat, nat>)
    requires PlacesOK(h, places, pages, classes, blocks) && PagesOK(h, pages, classes, free, blocks) && ClassesOK(classes, byKey)
    requires SlabMapOK(slabMap, pages)
    requires a in h && h[a].live && a in places && places[a].SlotPlace?
    requires PayloadContains(h[a], a, address)
    ensures address / ADDRESS_PAGE_BYTES in slabMap && slabMap[address / ADDRESS_PAGE_BYTES] == places[a].page
  {
    hide PageOK, SlotAddress, GeometryOK;
    assert PlaceOK(a, h[a], places[a], pages, classes, blocks);
    var p := places[a].page;
    assert PageGeometryOK(p, pages[p], classes, blocks);
    var c := classes[pages[p].slabClass];
    assert c in classes;
    SlotInPage(c, p, places[a].index);
    OnSlabPageIffInside(address, p);
  }

  lemma SystemOwnerIsMapped(a: nat, address: nat, h: Headers, places: Places, sysMap: map<nat, seq<nat>>)
    requires SystemMapOK(sysMap, h, places)
    requires a in h && a in places && places[a].SystemPlace? && PayloadContains(h[a], a, address)
    ensures address / ADDRESS_PAGE_BYTES in sysMap && a in sysMap[address / ADDRESS_PAGE_BYTES]
  {
    CoveredByItsPage(a, h[a].payloadSize, address);
    hide Covers;
  }

  lemma CoveredByItsPage(a: nat, size: nat, address: nat)
    requires PayloadAddress(a) <= address < PayloadAddress(a) + size
    ensures Covers(a, size, address / ADDRESS_PAGE_BYTES)
  {
  }

  lemma LastAddressIsExact(a: nat, h: Headers, places: Places, pages: Pages, classes: Classes, byKey: map<nat, nat>,
                           free: map<nat, seq<nat>>, blocks: Blocks)
    requires PlacesOK(h, places, pages, classes, blocks) && PagesOK(h, pages, classes, free, blocks) && ClassesOK(classes, byKey)
    requires BlocksApart(blocks) && a in h && h[a].live
    ensures h[a].payloadSize >= 1
    ensures AllocationLastAddress(PayloadAddress(a), h[a].payloadSize) == PayloadAddress(a) + h[a].payloadSize - 1
  {
    hide SlotAddress;
    assert PlaceOK(a, h[a], places[a], pages, classes, blocks);
    HeaderInsideBlock(a, h, places, pages, classes, free, blocks, byKey);
  }

  lemma SlabMapEntry(key: nat, address: nat, slabMap: map<nat, nat>, pages: Pages, h: Headers, classes: Classes,
                     free: map<nat, seq<nat>>, blocks: Blocks)
    requires SlabMapOK(slabMap, pages) && PagesOK(h, pages, classes, free, blocks)
    requires key in slabMap && key == address / ADDRESS_PAGE_BYTES
    ensures slabMap[key] in pages && slabMap[key] <= address
  {
    hide PageOK;
    assert PageGeometryOK(slabMap[key], pages[slabMap[key]], classes, blocks);
    OnSlabPageIffInside(address, slabMap[key]);
  }

  lemma BucketHeaders(bucket: seq<nat>, key: nat, h: Headers, places: Places, sysMap: map<nat, seq<nat>>)
    requires SystemMapOK(sysMap, h, places) && key in sysMap && bucket == sysMap[key]
    ensures forall a :: a in bucket ==> a in h && a in places
  {
    hide NoDuplicates, Covers;
  }

  function SlotIndex(offset: nat, stride: nat): nat
    requires stride > 0
  {
    offset / stride
  }

  ghost predicate SlabOwner(a: nat, address: nat, p: nat, h: Headers, places: Places) {
    a in h && a in places && places[a].SlotPlace? && places[a].page == p && h[a].live && PayloadContains(h[a], a, address)
  }

  /** At most one slot of a page can own the address: the one at the computed index. */
  lemma SlabOwnersAreIndexed(address: nat, p: nat, index: nat, c: SlabClass, h: Headers, places: Places, pages: Pages, classes: Classes,
                             byKey: map<nat, nat>, blocks: Blocks)
    requires PlacesOK(h, places, pages, classes, blocks) && ClassesOK(classes, byKey)
    requires p in pages && pages[p].slabClass < |classes| && c == classes[pages[p].slabClass]
    requires c.slotStride > 0 && address >= p && index == SlotIndex(address - p, c.slotStride)
    ensures forall a :: SlabOwner(a, address, p, h, places) ==>
      index < c.slotsPerPage && a == SlotAddress(c.slotStride, c.headerOffset, p, index)
      && h[a].magic == ALLOCATION_MAGIC && h[a].storageKind == SlabStorage
  {
    hide PlacesOK, ClassesOK, SlotAddress;
    forall a | SlabOwner(a, address, p, h, places)
      ensures index < c.slotsPerPage && a == SlotAddress(c.slotStride, c.headerOffset, p, index)
        && h[a].magic == ALLOCATION_MAGIC && h[a].storageKind == SlabStorage
    {
      SlabOwnerIsIndexed(a, address, p, h, places, pages, classes, byKey, blocks);
    }
  }

  /** The test findOwningSlabAllocation applies to the bytes of a slot, handed out or not. */
  predicate ReadsAsOwner(hd: AllocationHeader, a: nat, address: nat) {
    hd.live && hd.magic == ALLOCATION_MAGIC && hd.storageKind == SlabStorage && hd.payloadSize >= 1
    && PayloadAddress(a) <= address <= AllocationLastAddress(PayloadAddress(a), hd.payloadSize)
  }

  /** findOwningSlabAllocation: the slot the address falls in, if its bytes read as its owner. */
  function FindOwningSlabAllocation(h: Headers, c: SlabClass, p: nat, address: nat): nat
    requires c.slotStride > 0 && address >= p
  {
    var slotIndex := SlotIndex(address - p, c.slotStride);
    if slotIndex >= c.slotsPerPage then 0
    else
      var header := SlabHeaderAt(c, p, slotIndex);
      if header in h && ReadsAsOwner(h[header], header, address) then header else 0
  }

  /** The lookup trusts the bytes of a slot whether or not it was ever handed out: an address in
      the payload area of slot i is attributed to that slot iff its bytes read as a live owner.
      It is exact only because no slot that was never handed out reads as live. */
  lemma SlabLookupTrustsBytes(h: Headers, c: SlabClass, p: nat, i: nat, address: nat)
    requires GeometryOK(c) && i < c.slotsPerPage && p != 0
    requires var a := SlotAddress(c.slotStride, c.headerOffset, p, i);
      a in h && PayloadAddress(a) <= address < PayloadAddress(a) + Max(c.payloadSize, 1)
    ensures c.slotStride > 0 && address >= p
    ensures var a := SlotAddress(c.slotStride, c.headerOffset, p, i);
      FindOwningSlabAllocation(h, c, p, address) == a <==>
        && h[a].live && h[a].magic == 0x4D56_4D41_5252_4159 && h[a].storageKind == SlabStorage
        && h[a].payloadSize >= 1 && a + 80 <= address <= AllocationLastAddress(a + 80, h[a].payloadSize)
  {
    SlotIndexOf(c, p, i, address);
  }

  /** On a consistent registry the slab lookup is sound and complete for the slots of the page. */
  lemma SlabLookupIsExact(address: nat, p: nat, c: SlabClass, h: Headers, s: seq<nat>, places: Places, pages: Pages, classes: Classes,
                          byKey: map<nat, nat>, free: map<nat, seq<nat>>, blocks: Blocks)
    requires PlacesOK(h, places, pages, classes, blocks) && PagesOK(h, pages, classes, free, blocks) && ClassesOK(classes, byKey)
    requires LiveIffActive(h, s) && BlocksApart(blocks)
    requires p in pages && pages[p].slabClass < |classes| && c == classes[pages[p].slabClass] && address >= p && c.slotStride > 0
    ensures var r := FindOwningSlabAllocation(h, c, p, address);
      && (r != 0 ==> r in s && r in h && PayloadContains(h[r], r, address))
      && (r == 0 ==> forall a :: !SlabOwner(a, address, p, h, places))
  {
    var index := SlotIndex(address - p, c.slotStride);
    SlabOwnersAreIndexed(address, p, index, c, h, places, pages, classes, byKey, blocks);
    hide SlotIndex, SlotAddress, PagesOK, BlocksApart, ClassesOK;
    var r := FindOwningSlabAllocation(h, c, p, address);
    SlabOwnerContains(address, p, h, places);
    hide SlabOwner;
    if index < c.slotsPerPage {
      var header := SlabHeaderAt(c, p, index);
      if header in h && h[header].live {
        LastAddressIsExact(header, h, places, pages, classes, byKey, free, blocks);
        assert PlaceOK(header, h[header], places[header], pages, classes, blocks);
      }
      hide PlacesOK;
      forall a
        ensures r == 0 ==> !SlabOwner(a, address, p, h, places)
      {
        if SlabOwner(a, address, p, h, places) {
          SlabOwnerIsNotNull(a, address, p, h, places, pages, classes, blocks);
        }
      }
    }
  }

  lemma SlabOwnerIsNotNull(a: nat, address: nat, p: nat, h: Headers, places: Places, pages: Pages, classes: Classes, blocks: Blocks)
    requires PlacesOK(h, places, pages, classes, blocks) && SlabOwner(a, address, p, h, places)
    ensures a != 0
  {
    assert PlaceOK(a, h[a], places[a], pages, classes, blocks);
  }

  lemma StrideIsPositive(c: SlabClass)
    requires GeometryOK(c)
    ensures c.slotStride > 0
  {
  }

  lemma SlabOwnerContains(address: nat, p: nat, h: Headers, places: Places)
    ensures forall a :: SlabOwner(a, address, p, h, places) ==> a in h && h[a].live && PayloadContains(h[a], a, address)
  {
  }

  lemma SlabSearchFailed(address: nat, h: Headers, s: seq<nat>, places: Places, pages: Pages, classes: Classes, byKey: map<nat, nat>,
                         free: map<nat, seq<nat>>, blocks: Blocks, slabMap: map<nat, nat>)
    requires PlacesOK(h, places, pages, classes, blocks) && PagesOK(h, pages, classes, free, blocks) && ClassesOK(classes, byKey)
    requires SlabMapOK(slabMap, pages) && LiveIffActive(h, s)
    requires var key := address / ADDRESS_PAGE_BYTES; key in slabMap ==> forall a :: !SlabOwner(a, address, slabMap[key], h, places)
    ensures forall a :: a in s && a in places && places[a].SlotPlace? ==> a in h && !PayloadContains(h[a], a, address)
  {
    forall a | a in s && a in places && places[a].SlotPlace?
      ensures a in h && !PayloadContains(h[a], a, address)
    {
      hide PlacesOK, PagesOK, ClassesOK, SlabMapOK;
      var key := address / ADDRESS_PAGE_BYTES;
      assert key in slabMap ==> !SlabOwner(a, address, slabMap[key], h, places);
      if PayloadContains(h[a], a, address) {
        SlabOwnerIsMapped(a, address, h, places, pages, classes, byKey, free, blocks, slabMap);
      }
    }
  }
}
