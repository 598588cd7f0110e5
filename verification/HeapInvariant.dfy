/** The representation invariant of the managed heap, one predicate per structure. */
module HeapInvariant {
  import opened Wrappers
  import opened MachineWords
  import opened HeapModel

  // ----- The doubly linked list of active allocations -----

  ghost predicate LinkedAt(h: Headers, s: seq<nat>, i: int) {
    0 <= i < |s| && s[i] != 0 && s[i] in h
    && h[s[i]].prev == At(s, i - 1) && h[s[i]].next == At(s, i + 1)
  }

  ghost predicate ActiveList(h: Headers, s: seq<nat>, head: nat) {
    && head == At(s, 0)
    && NoDuplicates(s)
    && forall i {:trigger LinkedAt(h, s, i)} :: 0 <= i < |s| ==> LinkedAt(h, s, i)
  }

  ghost predicate LiveIffActive(h: Headers, s: seq<nat>) {
    && (forall a :: a in s ==> a in h && h[a].live)
    && (forall a :: a in h && h[a].live ==> a in s)
  }

  // ----- Slab classes -----

  predicate GeometryOK(c: SlabClass) {
    && IsSlabAlignment(c.alignment) && 8 <= c.alignment <= MAX_SLAB_ALIGNMENT
    && IsMultiple(c.headerOffset + HEADER_BYTES, c.alignment)
    && IsMultiple(c.slotStride, c.alignment)
    && c.headerOffset + HEADER_BYTES + Max(c.payloadSize, 1) <= c.slotStride
    && c.slotsPerPage > 0
    && SlotOffset(c.slotStride, c.slotsPerPage) <= SLAB_PAGE_BYTES < SlotOffset(c.slotStride, c.slotsPerPage + 1)
    && c.payloadSize <= MAX_SLAB_PAYLOAD
  }

  predicate IsSlabAlignment(a: nat) { a in {8, 16, 32, 64} }

  function ClassKey(payloadSize: nat, alignment: nat): nat {
    BitOr((alignment * Pow2(32)) % WORD_LIMIT, payloadSize)
  }

  /** Class k is the one its key leads to, so no two classes share a size and an alignment. */
  ghost predicate KeyedAt(classes: Classes, byKey: map<nat, nat>, k: int) {
    && 0 <= k < |classes|
    && var key := ClassKey(classes[k].payloadSize, classes[k].alignment);
      key in byKey && byKey[key] == k
  }

  ghost predicate ClassesOK(classes: Classes, byKey: map<nat, nat>) {
    && (forall c :: c in classes ==> GeometryOK(c))
    && (forall key :: key in byKey ==>
          byKey[key] < |classes|
          && key == ClassKey(classes[byKey[key]].payloadSize, classes[byKey[key]].alignment))
    && (forall k {:trigger KeyedAt(classes, byKey, k)} :: 0 <= k < |classes| ==> KeyedAt(classes, byKey, k))
  }

  // ----- Slab pages -----

  predicate HasFreeSlots(pg: SlabPage, classes: Classes)
    requires pg.slabClass < |classes|
  {
    pg.freeList != 0 || pg.nextUnusedSlot < classes[pg.slabClass].slotsPerPage
  }

  /** The free list of a page threads the given slot indexes through header.next. */
  ghost predicate FreeChain(h: Headers, c: SlabClass, p: nat, f: seq<nat>, head: nat) {
    if f == [] then head == 0
    else
      && head == SlotAddress(c.slotStride, c.headerOffset, p, f[0])
      && head in h
      && FreeChain(h, c, p, f[1..], h[head].next)
  }

  ghost predicate SlotUse(h: Headers, c: SlabClass, p: nat, pg: SlabPage, f: seq<nat>) {
    forall i {:trigger SlotAddress(c.slotStride, c.headerOffset, p, i)} ::
      0 <= i < c.slotsPerPage ==>
        var a := SlotAddress(c.slotStride, c.headerOffset, p, i);
        a in h && (h[a].live <==> i < pg.nextUnusedSlot && i !in f)
  }

  ghost predicate PageOK(h: Headers, c: SlabClass, p: nat, pg: SlabPage, f: seq<nat>) {
    && pg.nextUnusedSlot <= c.slotsPerPage
    && NoDuplicates(f)
    && (forall i :: i in f ==> i < pg.nextUnusedSlot)
    && pg.liveCount + |f| == pg.nextUnusedSlot
    && FreeChain(h, c, p, f, pg.freeList)
    && SlotUse(h, c, p, pg, f)
  }

  ghost predicate PageGeometryOK(p: nat, pg: SlabPage, classes: Classes, blocks: Blocks) {
    && pg.slabClass < |classes|
    && p % ADDRESS_PAGE_BYTES == 0
    && pg.allocationBase in blocks
    && blocks[pg.allocationBase].owner == PageBlock(p)
    && pg.allocationBase <= p
    && p + SLAB_PAGE_BYTES <= pg.allocationBase + blocks[pg.allocationBase].size
  }

  ghost predicate PagesOK(h: Headers, pages: Pages, classes: Classes, free: map<nat, seq<nat>>, blocks: Blocks) {
    && free.Keys == pages.Keys
    && (forall p :: p in pages ==> PageGeometryOK(p, pages[p], classes, blocks))
    && (forall p :: p in pages ==> PageOK(h, classes[pages[p].slabClass], p, pages[p], free[p]))
  }

  // ----- The per-class lists of pages with a free slot -----

  ghost predicate PageLinkedAt(pages: Pages, s: seq<nat>, i: int) {
    0 <= i < |s| && s[i] != 0 && s[i] in pages
    && pages[s[i]].prevNonFull == At(s, i - 1) && pages[s[i]].nextNonFull == At(s, i + 1)
  }

  ghost predicate PageList(pages: Pages, s: seq<nat>, head: nat) {
    && head == At(s, 0)
    && NoDuplicates(s)
    && forall i {:trigger PageLinkedAt(pages, s, i)} :: 0 <= i < |s| ==> PageLinkedAt(pages, s, i)
  }

  ghost predicate ClassList(pages: Pages, s: seq<nat>, k: nat, head: nat) {
    && PageList(pages, s, head)
    && (forall p :: p in s ==> p in pages && pages[p].slabClass == k)
  }

  ghost predicate Listed(pages: Pages, nonFull: seq<seq<nat>>, p: nat) {
    p in pages && pages[p].slabClass < |nonFull| && p in nonFull[pages[p].slabClass]
  }

  /** Page p is on its class's list iff it has a free slot; `exempt` is left open. */
  ghost predicate PageListed(pages: Pages, classes: Classes, nonFull: seq<seq<nat>>, p: nat, exempt: nat) {
    && p != 0 && p in pages && pages[p].slabClass < |classes| == |nonFull|
    && (p != exempt ==> (Listed(pages, nonFull, p) <==> HasFreeSlots(pages[p], classes)))
    && (!Listed(pages, nonFull, p) ==> pages[p].prevNonFull == 0 && pages[p].nextNonFull == 0)
  }

  ghost predicate NonFullOK(pages: Pages, classes: Classes, nonFull: seq<seq<nat>>, exempt: nat) {
    && |nonFull| == |classes|
    && (forall k :: 0 <= k < |classes| ==> ClassList(pages, nonFull[k], k, classes[k].nonFullPages))
    && (forall p {:trigger PageListed(pages, classes, nonFull, p, exempt)} ::
          p in pages ==> PageListed(pages, classes, nonFull, p, exempt))
  }

  // ----- Where headers live -----

  ghost predicate HeaderOK(h: AllocationHeader) {
    && h.magic == ALLOCATION_MAGIC
    && h.payloadSize >= 1
    && (h.typeDescriptor.Some? ==>
          ElementCount(h) * h.typeDescriptor.value.instanceSize <= h.payloadSize)
  }

  function ElementCount(h: AllocationHeader): nat {
    if h.kind == ArrayKind then h.elementCount else 1
  }

  /** The elements of a new allocation fit its payload. */
  ghost predicate DescriptorFits(kind: AllocationKind, elementCount: Word, payloadSize: nat, typeDescriptor: Option<Descriptor>) {
    typeDescriptor.Some? ==>
      (if kind == ArrayKind then elementCount else 1) * typeDescriptor.value.instanceSize <= Max(payloadSize, 1)
  }

  ghost predicate PlaceOK(a: nat, h: AllocationHeader, place: Place, pages: Pages, classes: Classes, blocks: Blocks) {
    && a != 0
    && (h.live ==> HeaderOK(h))
    && match place
       case SystemPlace(base) =>
         && h.live && h.storageKind == SystemStorage && h.storageOwner == base
         && base in blocks && blocks[base].owner == SystemBlock(a)
         && base <= a && a + HEADER_BYTES + h.payloadSize <= base + blocks[base].size
       case SlotPlace(p, i) =>
         && p in pages && pages[p].slabClass < |classes|
         && var c := classes[pages[p].slabClass];
         && i < c.slotsPerPage
         && a == SlotAddress(c.slotStride, c.headerOffset, p, i)
         && (h.live ==> h.storageKind == SlabStorage && h.storageOwner == p && h.payloadSize == Max(c.payloadSize, 1))
  }

  ghost predicate PlacesOK(h: Headers, places: Places, pages: Pages, classes: Classes, blocks: Blocks) {
    && places.Keys == h.Keys
    && (forall a :: a in places ==> PlaceOK(a, h[a], places[a], pages, classes, blocks))
  }

  /** Every slot of a page is a header address recorded as that slot. */
  ghost predicate SlotsPlaced(places: Places, pages: Pages, classes: Classes) {
    forall p :: p in pages ==> pages[p].slabClass < |classes| && PageSlotsPlaced(places, classes[pages[p].slabClass], p)
  }

  ghost predicate PageSlotsPlaced(places: Places, c: SlabClass, p: nat) {
    forall i {:trigger SlotAddress(c.slotStride, c.headerOffset, p, i)} ::
      0 <= i < c.slotsPerPage ==>
        var a := SlotAddress(c.slotStride, c.headerOffset, p, i);
        a in places && places[a] == SlotPlace(p, i)
  }

  // ----- Raw blocks -----

  ghost predicate BlocksApart(blocks: Blocks) {
    && (forall b :: b in blocks ==> 0 < b && 0 < blocks[b].size && b + blocks[b].size <= WORD_LIMIT)
    && (forall b, b' :: b in blocks && b' in blocks && b < b' ==> b + blocks[b].size <= b')
  }

  /** No block is leaked: each is owned by one active system allocation or one slab page. */
  ghost predicate BlocksOwned(blocks: Blocks, places: Places, pages: Pages) {
    forall b :: b in blocks ==>
      match blocks[b].owner
      case Unowned => false
      case SystemBlock(a) => a in places && places[a] == SystemPlace(b)
      case PageBlock(p) => p in pages && pages[p].allocationBase == b
  }

  // ----- The two page-indexed lookup tables -----

  predicate OnSlabPage(key: nat, page: nat) {
    page / ADDRESS_PAGE_BYTES <= key < page / ADDRESS_PAGE_BYTES + SLAB_ADDRESS_PAGES
  }

  ghost predicate SlabMapOK(slabMap: map<nat, nat>, pages: Pages) {
    && (forall key :: key in slabMap ==> slabMap[key] in pages && OnSlabPage(key, slabMap[key]))
    && (forall key, p :: p in pages && OnSlabPage(key, p) ==> key in slabMap && slabMap[key] == p)
  }

  predicate Covers(a: nat, payloadSize: nat, key: nat) {
    payloadSize >= 1
    && PayloadAddress(a) / ADDRESS_PAGE_BYTES <= key
    && key <= (PayloadAddress(a) + payloadSize - 1) / ADDRESS_PAGE_BYTES
  }

  ghost predicate BucketOK(bucket: seq<nat>, key: nat, h: Headers, places: Places) {
    && bucket != []
    && NoDuplicates(bucket)
    && (forall a :: a in bucket ==> a in places && a in h && places[a].SystemPlace? && Covers(a, h[a].payloadSize, key))
  }

  ghost predicate SystemMapOK(sysMap: map<nat, seq<nat>>, h: Headers, places: Places) {
    && (forall key :: key in sysMap ==> BucketOK(sysMap[key], key, h, places))
    && (forall a, key :: a in places && a in h && places[a].SystemPlace? && Covers(a, h[a].payloadSize, key) ==>
          key in sysMap && a in sysMap[key])
  }
}
