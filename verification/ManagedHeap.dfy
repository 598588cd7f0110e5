/** The allocation registry of the runtime: the global lists and tables, the slab and
    system allocators, the owner lookup and reclamation. */
module ManagedHeapModule {
  import opened Wrappers
  import opened MachineWords
  import opened HeapModel
  import opened HeapInvariant
  import opened HeapLemmas
  import opened PageTables
  import opened SystemAllocation
  import opened SlabAllocation
  import opened Reclamation
  import opened HeapGraph
  import opened OwnerLookup
  import opened MarkSweep
  import opened MemoryUse

  const ABI_VERSION: Word := 1
  const DEFAULT_HEAP_LIMIT: Word := 8 * 1024 * 1024

  /** A runtime entry point either returns a word or prints a message and aborts the process. */
  datatype EntryResult = Aborted(message: string) | Returned(payload: nat)

  class ManagedHeap {
    var headers: Headers
    var words: map<nat, Word>
    var activeHead: nat
    var slabClasses: Classes
    var slabClassByKey: map<nat, nat>
    var slabPages: Pages
    var slabPagesByAddressPage: map<nat, nat>
    var systemHeadersByPage: map<nat, seq<nat>>
    var blocks: Blocks  // malloc's own record of what is allocated

    var collectionCount: nat
    var trackedHeapBytes: Word
    var heapLimitBytes: Word
    var gcRequested: bool

    ghost var active: seq<nat>
    ghost var free: map<nat, seq<nat>>
    ghost var nonFull: seq<seq<nat>>
    ghost var places: Places

    ghost predicate ValidExcept(exempt: nat)
      reads this
    {
      && ActiveList(headers, active, activeHead)
      && LiveIffActive(headers, active)
      && ClassesOK(slabClasses, slabClassByKey)
      && PagesOK(headers, slabPages, slabClasses, free, blocks)
      && NonFullOK(slabPages, slabClasses, nonFull, exempt)
      && PlacesOK(headers, places, slabPages, slabClasses, blocks)
      && SlotsPlaced(places, slabPages, slabClasses)
      && BlocksApart(blocks)
      && BlocksOwned(blocks, places, slabPages)
      && SlabMapOK(slabPagesByAddressPage, slabPages)
      && SystemMapOK(systemHeadersByPage, headers, places)
    }

    /** Valid but for one raw block that has no owner yet. */
    ghost predicate ValidWithNewBlock(base: nat)
      reads this
    {
      && base in blocks
      && FreshRange(base, blocks[base].size, blocks - {base})
      && ActiveList(headers, active, activeHead)
      && LiveIffActive(headers, active)
      && ClassesOK(slabClasses, slabClassByKey)
      && PagesOK(headers, slabPages, slabClasses, free, blocks - {base})
      && NonFullOK(slabPages, slabClasses, nonFull, 0)
      && PlacesOK(headers, places, slabPages, slabClasses, blocks - {base})
      && SlotsPlaced(places, slabPages, slabClasses)
      && BlocksApart(blocks)
      && BlocksOwned(blocks - {base}, places, slabPages)
      && SlabMapOK(slabPagesByAddressPage, slabPages)
      && SystemMapOK(systemHeadersByPage, headers, places)
    }

    /** Valid but for header a, which is live and no longer on the active list. */
    ghost predicate UnlinkedFrom(a: nat)
      reads this
    {
      && ActiveList(headers, active, activeHead)
      && LiveButFor(headers, a, active)
      && ClassesOK(slabClasses, slabClassByKey)
      && PagesOK(headers, slabPages, slabClasses, free, blocks)
      && NonFullOK(slabPages, slabClasses, nonFull, 0)
      && PlacesOK(headers, places, slabPages, slabClasses, blocks)
      && SlotsPlaced(places, slabPages, slabClasses)
      && BlocksApart(blocks)
      && BlocksOwned(blocks, places, slabPages)
      && SlabMapOK(slabPagesByAddressPage, slabPages)
      && SystemMapOK(systemHeadersByPage, headers, places)
    }

    /** Valid but for header a, which is live and not yet on the active list. */
    ghost predicate AwaitingLink(a: nat)
      reads this
    {
      && a != 0 && a in headers && a !in active
      && ActiveList(headers, active, activeHead)
      && LiveIffActive(headers, [a] + active)
      && ClassesOK(slabClasses, slabClassByKey)
      && PagesOK(headers, slabPages, slabClasses, free, blocks)
      && NonFullOK(slabPages, slabClasses, nonFull, 0)
      && PlacesOK(headers, places, slabPages, slabClasses, blocks)
      && SlotsPlaced(places, slabPages, slabClasses)
      && BlocksApart(blocks)
      && BlocksOwned(blocks, places, slabPages)
      && SlabMapOK(slabPagesByAddressPage, slabPages)
      && SystemMapOK(systemHeadersByPage, headers, places)
    }

    ghost predicate Valid()
      reads this
    {
      ValidExcept(0)
    }

    /** No page is kept for slots nobody holds. */
    ghost predicate Thrifty()
      reads this
    {
      NoIdlePage(slabPages)
    }

    /** The counters of gc.cc and the request flag. */
    ghost predicate SameAccounting(collections: nat, bytes: Word, requested: bool, limit: Word)
      reads this
    {
      collectionCount == collections && trackedHeapBytes == bytes && gcRequested == requested && heapLimitBytes == limit
    }

    constructor ()
      ensures Valid() && Thrifty() && active == [] && words == map[] && collectionCount == 0 && trackedHeapBytes == 0 && !gcRequested
      ensures heapLimitBytes == 8388608
    {
      collectionCount, trackedHeapBytes, heapLimitBytes, gcRequested := 0, 0, DEFAULT_HEAP_LIMIT, false;
      headers, words, activeHead := map[], map[], 0;
      slabClasses, slabClassByKey := [], map[];
      slabPages, slabPagesByAddressPage, systemHeadersByPage := map[], map[], map[];
      active, free, nonFull, places, blocks := [], map[], [], map[], map[];
    }

    method GetOrCreateSlabClass(payloadSize: nat, alignment: nat) returns (c: Option<nat>)
      requires Valid()
      requires IsSlabAlignment(alignment) && payloadSize <= MAX_SLAB_PAYLOAD
      modifies `slabClasses, `slabClassByKey, `nonFull
      ensures Valid()
      ensures c.None? ==> NewSlabClass(payloadSize, alignment).None? && !ClassExists(old(slabClasses), payloadSize, alignment)
      ensures c.Some? ==> c.value < |slabClasses|
      ensures c.Some? ==> slabClasses[c.value].payloadSize == payloadSize && slabClasses[c.value].alignment == alignment
      ensures slabClasses == old(slabClasses) + (if c.None? || c.value < |old(slabClasses)| then [] else [slabClasses[c.value]])
      ensures c.Some? && c.value >= |old(slabClasses)| ==> !ClassExists(old(slabClasses), payloadSize, alignment)
    {
      hide ActiveList, LiveIffActive, PagesOK, NonFullOK, PlacesOK, SlotsPlaced, BlocksApart, BlocksOwned, SlabMapOK, SystemMapOK, ClassKey, NewSlabClass,
        GeometryOK, ClassesOK;
      var key := ClassKey(payloadSize, alignment);
      ClassByKey(slabClasses, slabClassByKey, payloadSize, alignment);
      if key in slabClassByKey {
        return Some(slabClassByKey[key]);
      }
      var created := NewSlabClass(payloadSize, alignment);
      if created.None? {
        return None;
      }
      var slabClass := created.value;
      NewSlabClassGeometry(payloadSize, alignment);
      OneMoreClass(slabClasses, slabClassByKey, slabClass);
      slabClasses := slabClasses + [slabClass];
      slabClassByKey := slabClassByKey[key := |slabClasses| - 1];
      nonFull := nonFull + [[]];
      ClassesGrow(headers, slabPages, old(slabClasses), slabClasses, free, blocks, places);
      NonFullGrows(slabPages, old(slabClasses), slabClasses, old(nonFull), slabClass);
      return Some(|slabClasses| - 1);
    }

    // ----- Intrusive lists -----

    method LinkActiveAllocation(a: nat)
      requires ActiveList(headers, active, activeHead)
      requires a != 0 && a in headers && a !in active
      modifies `headers, `activeHead, `active
      ensures active == [a] + old(active)
      ensures ActiveList(headers, active, activeHead)
      ensures SameOffList(old(headers), headers, active)
    {
      hide SameOffList;
      assert active != [] ==> LinkedAt(headers, active, 0);
      headers := headers[a := headers[a].(prev := 0, next := activeHead)];
      if activeHead != 0 {
        headers := headers[activeHead := headers[activeHead].(prev := a)];
      }
      LinkKeepsActiveList(old(headers), active, activeHead, a, headers);
      activeHead := a;
      active := [a] + active;
    }

    method UnlinkActiveAllocation(a: nat)
      requires ActiveList(headers, active, activeHead)
      requires a in active && a in headers
      modifies `headers, `activeHead, `active
      ensures active == Remove(old(active), a)
      ensures forall x :: x in active <==> x in old(active) && x != a
      ensures ActiveList(headers, active, activeHead)
      ensures SameOffList(old(headers), headers, old(active))
    {
      hide SameOffList;
      ghost var k := IndexOf(active, a);
      assert LinkedAt(headers, active, k);
      assert k > 0 ==> LinkedAt(headers, active, k - 1);
      assert k + 1 < |active| ==> LinkedAt(headers, active, k + 1);
      var prev, next := headers[a].prev, headers[a].next;
      UnlinkKeepsActiveList(headers, active, activeHead, a, if prev == 0 && activeHead == a then next else activeHead);
      if prev != 0 {
        headers := headers[prev := headers[prev].(next := next)];
      } else if activeHead == a {
        activeHead := next;
      }
      if next != 0 {
        headers := headers[next := headers[next].(prev := prev)];
      }
      headers := headers[a := headers[a].(prev := 0, next := 0)];
      assert headers == SplicedHeaders(old(headers), a);
      active := Remove(active, a);
    }

    predicate IsSlabPageLinked(p: nat)
      requires p in slabPages && slabPages[p].slabClass < |slabClasses|
      reads this
    {
      slabPages[p].prevNonFull != 0 || slabPages[p].nextNonFull != 0
      || slabClasses[slabPages[p].slabClass].nonFullPages == p
    }

    method LinkNonFullSlabPage(p: nat)
      requires p != 0 && p in slabPages
      requires NonFullOK(slabPages, slabClasses, nonFull, p)
      requires Listed(slabPages, nonFull, p) && slabPages[p].slabClass < |slabClasses| ==> HasFreeSlots(slabPages[p], slabClasses)
      modifies `slabPages, `slabClasses, `nonFull
      ensures NonFullOK(slabPages, slabClasses, nonFull, 0)
      ensures SamePagesOffLinks(old(slabPages), slabPages)
      ensures SameGeometry(old(slabClasses), slabClasses)
    {
      var k := slabPages[p].slabClass;
      assert PageListed(slabPages, slabClasses, nonFull, p, p);
      assert ClassList(slabPages, nonFull[k], k, slabClasses[k].nonFullPages);
      PageLinked(slabPages, nonFull[k], slabClasses[k].nonFullPages, p);
      if IsSlabPageLinked(p) || !HasFreeSlots(slabPages[p], slabClasses) {
        ListedExactly(slabPages, slabClasses, nonFull, p);
        return;
      }
      hide NoDuplicates;
      var head := slabClasses[k].nonFullPages;
      assert nonFull[k] != [] ==> PageLinkedAt(slabPages, nonFull[k], 0);
      slabPages := slabPages[p := slabPages[p].(prevNonFull := 0, nextNonFull := head)];
      if head != 0 {
        slabPages := slabPages[head := slabPages[head].(prevNonFull := p)];
      }
      LinkKeepsPageList(old(slabPages), nonFull[k], head, p, slabPages);
      NonFullAfterRelink(old(slabPages), slabPages, slabClasses, k, nonFull, [p] + nonFull[k], p, p);
      slabClasses := slabClasses[k := slabClasses[k].(nonFullPages := p)];
      nonFull := nonFull[k := [p] + nonFull[k]];
      ListedExactly(slabPages, slabClasses, nonFull, p);
    }

    method UnlinkNonFullSlabPage(p: nat)
      requires p != 0 && p in slabPages
      requires NonFullOK(slabPages, slabClasses, nonFull, p)
      modifies `slabPages, `slabClasses, `nonFull
      ensures NonFullOK(slabPages, slabClasses, nonFull, p)
      ensures SamePagesOffLinks(old(slabPages), slabPages)
      ensures !Listed(slabPages, nonFull, p)
      ensures SameGeometry(old(slabClasses), slabClasses)
    {
      var k := slabPages[p].slabClass;
      assert PageListed(slabPages, slabClasses, nonFull, p, p);
      assert ClassList(slabPages, nonFull[k], k, slabClasses[k].nonFullPages);
      PageLinked(slabPages, nonFull[k], slabClasses[k].nonFullPages, p);
      if !IsSlabPageLinked(p) {
        return;
      }
      ghost var i := IndexOf(nonFull[k], p);
      assert PageLinkedAt(slabPages, nonFull[k], i);
      assert i > 0 ==> PageLinkedAt(slabPages, nonFull[k], i - 1);
      assert i + 1 < |nonFull[k]| ==> PageLinkedAt(slabPages, nonFull[k], i + 1);
      var prev, next, head := slabPages[p].prevNonFull, slabPages[p].nextNonFull, slabClasses[k].nonFullPages;
      var newHead := if prev == 0 && head == p then next else head;
      UnlinkKeepsPageList(slabPages, nonFull[k], head, p, newHead);
      if prev != 0 {
        slabPages := slabPages[prev := slabPages[prev].(nextNonFull := next)];
      } else if head == p {
        slabClasses := slabClasses[k := slabClasses[k].(nonFullPages := next)];
      }
      if next != 0 {
        slabPages := slabPages[next := slabPages[next].(prevNonFull := prev)];
      }
      slabPages := slabPages[p := slabPages[p].(prevNonFull := 0, nextNonFull := 0)];
      assert slabPages == SplicedPages(old(slabPages), p);
      NonFullAfterRelink(old(slabPages), slabPages, old(slabClasses), k, nonFull, Remove(nonFull[k], p), newHead, p);
      assert slabClasses == old(slabClasses)[k := old(slabClasses)[k].(nonFullPages := newHead)];
      nonFull := nonFull[k := Remove(nonFull[k], p)];
    }

    // ----- Raw memory -----

    method Malloc(size: nat, os: MallocOracle) returns (base: Option<nat>)
      requires size > 0 && BlocksApart(blocks) && OracleSound(os, blocks)
      modifies `blocks, `words
      ensures base == os.base(size)
      ensures base.None? ==> blocks == old(blocks)
      ensures base.Some? ==> 0 < base.value && base.value + size <= WORD_LIMIT
      ensures base.Some? ==> FreshRange(base.value, size, old(blocks)) && base.value !in old(blocks)
      ensures base.Some? ==> blocks == old(blocks)[base.value := Block(size, Unowned)]
      ensures BlocksApart(blocks)
      ensures KeepsWords(old(words), words, old(blocks))
    {
      base := os.base(size);
      if base.Some? {
        var b := base.value;
        FreshBlockStaysApart(b, size, Unowned, blocks);
        words := words + map w | w in os.staleWords.Keys && b <= w < b + size :: os.staleWords[w];
        blocks := blocks[b := Block(size, Unowned)];
      }
    }

    /** Returns a block to malloc: everything stored in it is gone. */
    method Free(base: nat)
      requires base in blocks
      modifies `blocks, `headers, `places
      ensures blocks == old(blocks) - {base}
      ensures headers == (map x | x in old(headers) && !InBlock(x, base, old(blocks)) :: old(headers)[x])
      ensures places == (map x | x in old(places) && !InBlock(x, base, old(blocks)) :: old(places)[x])
    {
      headers := map x | x in headers.Keys && !InBlock(x, base, blocks) :: headers[x];
      places := map x | x in places && !InBlock(x, base, blocks) :: places[x];
      blocks := blocks - {base};
    }

    // ----- System allocations -----

    method RegisterSystemAllocationPages(a: nat)
      requires a in headers && headers[a].payloadSize >= 1
      modifies `systemHeadersByPage
      ensures Registered(old(systemHeadersByPage), systemHeadersByPage, a, PayloadAddress(a) / ADDRESS_PAGE_BYTES,
                (PayloadAddress(a) + headers[a].payloadSize - 1) / ADDRESS_PAGE_BYTES + 1)
    {
      var firstPage := PayloadAddress(a) / ADDRESS_PAGE_BYTES;
      var lastPage := (PayloadAddress(a) + headers[a].payloadSize - 1) / ADDRESS_PAGE_BYTES;
      var page := firstPage;
      while page <= lastPage
        invariant firstPage <= page <= lastPage + 1
        invariant Registered(old(systemHeadersByPage), systemHeadersByPage, a, firstPage, page)
      {
        RegisterOne(old(systemHeadersByPage), systemHeadersByPage, a, firstPage, page);
        systemHeadersByPage := systemHeadersByPage[page := Bucket(systemHeadersByPage, page) + [a]];
        page := page + 1;
      }
    }

    method UnregisterSystemAllocationPages(a: nat)
      requires a in headers && headers[a].payloadSize >= 1
      requires forall key :: key in systemHeadersByPage ==> systemHeadersByPage[key] != [] && NoDuplicates(systemHeadersByPage[key])
      modifies `systemHeadersByPage
      ensures Unregistered(old(systemHeadersByPage), systemHeadersByPage, a, PayloadAddress(a) / ADDRESS_PAGE_BYTES,
                (PayloadAddress(a) + headers[a].payloadSize - 1) / ADDRESS_PAGE_BYTES + 1)
    {
      var firstPage := PayloadAddress(a) / ADDRESS_PAGE_BYTES;
      var lastPage := (PayloadAddress(a) + headers[a].payloadSize - 1) / ADDRESS_PAGE_BYTES;
      var page := firstPage;
      while page <= lastPage
        invariant firstPage <= page <= lastPage + 1
        invariant Unregistered(old(systemHeadersByPage), systemHeadersByPage, a, firstPage, page)
      {
        ghost var before := systemHeadersByPage;
        if page in systemHeadersByPage {
          var bucket := systemHeadersByPage[page];
          assert Bucket(systemHeadersByPage, page) == Bucket(old(systemHeadersByPage), page);
          var j := FindInBucket(bucket, a);
          if j < |bucket| {
            SwapWithLastRemoves(bucket, j);
            bucket := SwapWithLast(bucket, j);
          }
          if bucket == [] {
            systemHeadersByPage := systemHeadersByPage - {page};
          } else {
            systemHeadersByPage := systemHeadersByPage[page := bucket];
          }
          assert Bucket(systemHeadersByPage, page) == bucket;
        }
        UnregisterOne(old(systemHeadersByPage), before, systemHeadersByPage, a, firstPage, page);
        page := page + 1;
      }
    }

    static method FindInBucket(bucket: seq<nat>, a: nat) returns (j: nat)
      ensures j <= |bucket|
      ensures j < |bucket| ==> bucket[j] == a
      ensures j == |bucket| ==> a !in bucket
    {
      j := 0;
      while j < |bucket| && bucket[j] != a
        invariant j <= |bucket|
        invariant a !in bucket[..j]
      {
        j := j + 1;
      }
    }

    /** Places header and payload in a block malloc has just returned. */
    method PlaceSystemAllocation(kind: AllocationKind, payloadSize: Word, elementCount: Word, alignment: Word,
                                 typeDescriptor: Option<Descriptor>, base: nat) returns (payload: nat)
      requires alignment > 0 && SystemRequest(payloadSize, alignment).Some?
      requires base in blocks && blocks[base] == Block(SystemRequest(payloadSize, alignment).value, Unowned)
      requires 0 < base && base + blocks[base].size <= WORD_LIMIT
      requires ValidWithNewBlock(base)
      requires alignment > 0 && IsPowerOfTwo(alignment)
      requires DescriptorFits(kind, elementCount, payloadSize, typeDescriptor)
      modifies `headers, `activeHead, `systemHeadersByPage, `active, `places, `blocks
      ensures Valid()
      ensures payload > HEADER_BYTES && IsMultiple(payload, alignment)
      ensures payload - 80 in headers && headers[payload - 80].storageKind == SystemStorage
      ensures Added(old(headers), old(active), headers, active,
                    Allocation(payload - HEADER_BYTES, kind, elementCount, Max(payloadSize, 1), typeDescriptor))
    {
      hide ActiveList, LiveIffActive, ClassesOK, PagesOK, NonFullOK, PlacesOK, SlotsPlaced, BlocksApart, BlocksOwned,
        SlabMapOK, SystemMapOK, AlignUp, IsPowerOfTwo, IsMultiple, DescriptorFits, SameOffList, Added, Registered, SystemRequest, PlaceOK, FreshRange;
      ghost var h, knownBlocks := headers, blocks - {base};
      var size := blocks[base].size;
      SystemLayout(payloadSize, alignment, base);
      payload := AlignUp(base + HEADER_BYTES, alignment);
      var a := payload - HEADER_BYTES;
      var hd := NewHeader(kind, SystemStorage, payloadSize, elementCount, typeDescriptor, base);
      assert blocks == knownBlocks[base := Block(size, Unowned)];
      blocks := blocks[base := Block(size, SystemBlock(a))];
      assert blocks == knownBlocks[base := Block(size, SystemBlock(a))];
      NewSystemHeaderOK(a, kind, payloadSize, elementCount, typeDescriptor, base, size, slabPages, slabClasses, knownBlocks);
      AddSystemHeader(h, a, hd, active, activeHead, places, slabPages, slabClasses, slabClassByKey, free, knownBlocks, base, size);
      headers := headers[a := hd];
      RegisterSystemAllocationPages(a);
      RegisterNewHeader(old(systemHeadersByPage), systemHeadersByPage, h, a, hd, places, slabPages, slabClasses, knownBlocks, base);
      places := places[a := SystemPlace(base)];
      LinkReadyAllocation(a);
      AddedByLink(h, h[a := hd], headers, old(active), a, hd);
    }

    /** allocateSystemTrackedLocked: a null payload reports overflow or malloc failure. */
    method AllocateSystemTrackedLocked(kind: AllocationKind, payloadSize: Word, elementCount: Word, alignment: Word,
                                       typeDescriptor: Option<Descriptor>, os: MallocOracle) returns (payload: nat)
      requires Valid() && OracleSound(os, blocks)
      requires alignment > 0 && IsPowerOfTwo(alignment)
      requires DescriptorFits(kind, elementCount, payloadSize, typeDescriptor)
      modifies this
      ensures SameAccounting(old(collectionCount), old(trackedHeapBytes), old(gcRequested), old(heapLimitBytes))
      ensures Valid()
      ensures payload == 0 <==> SystemRequest(payloadSize, alignment).None? || os.base(SystemRequest(payloadSize, alignment).value).None?
      ensures payload == 0 ==> active == old(active) && headers == old(headers) && blocks == old(blocks)
      ensures slabPages == old(slabPages)
      ensures payload != 0 ==> IsMultiple(payload, alignment)
      ensures payload != 0 ==> payload > 80 && payload - 80 in headers && headers[payload - 80].storageKind == SystemStorage
      ensures payload != 0 ==> Added(old(headers), old(active), headers, active,
                                     Allocation(payload - HEADER_BYTES, kind, elementCount, Max(payloadSize, 1), typeDescriptor))
      ensures KeepsWords(old(words), words, old(blocks))
    {
      hide ActiveList, LiveIffActive, ClassesOK, PagesOK, NonFullOK, PlacesOK, SlotsPlaced, BlocksApart, BlocksOwned,
        SlabMapOK, SystemMapOK, AlignUp, IsPowerOfTwo, IsMultiple, DescriptorFits, SameOffList, Added, FreshRange;
      var totalBytes := SystemRequest(payloadSize, alignment);
      if totalBytes.None? {
        return 0;
      }
      var base := Malloc(totalBytes.value, os);
      if base.None? {
        return 0;
      }
      assert blocks - {base.value} == old(blocks);
      payload := PlaceSystemAllocation(kind, payloadSize, elementCount, alignment, typeDescriptor, base.value);
    }

    // ----- Slab pages -----

    method RegisterSlabPageMappings(p: nat)
      requires p % ADDRESS_PAGE_BYTES == 0
      modifies `slabPagesByAddressPage
      ensures SlabMapped(old(slabPagesByAddressPage), slabPagesByAddressPage, p, p / ADDRESS_PAGE_BYTES, p / ADDRESS_PAGE_BYTES + SLAB_ADDRESS_PAGES)
    {
      SlabPageSpan(p);
      var firstPage := p / ADDRESS_PAGE_BYTES;
      var lastPage := (p + SLAB_PAGE_BYTES - 1) / ADDRESS_PAGE_BYTES;
      var page := firstPage;
      while page <= lastPage
        invariant firstPage <= page <= lastPage + 1
        invariant SlabMapped(old(slabPagesByAddressPage), slabPagesByAddressPage, p, firstPage, page)
      {
        MapOneMore(old(slabPagesByAddressPage), slabPagesByAddressPage, p, firstPage, page);
        slabPagesByAddressPage := slabPagesByAddressPage[page := p];
        page := page + 1;
      }
    }

    /** Puts a page without a used slot on its class's list. */
    method ListNewPage(p: nat)
      requires ValidExcept(p) && p != 0 && p in slabPages && slabPages[p].slabClass < |slabClasses| && slabPages[p].nextUnusedSlot == 0
      requires !Listed(slabPages, nonFull, p)
      modifies `slabPages, `slabClasses, `nonFull
      ensures Valid() && Listed(slabPages, nonFull, p)
      ensures SamePagesOffLinks(old(slabPages), slabPages) && SameGeometry(old(slabClasses), slabClasses)
    {
      hide ActiveList, LiveIffActive, ClassesOK, PagesOK, NonFullOK, PlacesOK, SlotsPlaced, BlocksApart, BlocksOwned,
        SlabMapOK, SystemMapOK, SamePagesOffLinks, SameGeometry, Listed, GeometryOK, HasFreeSlots;
      ghost var pages, classes := slabPages, slabClasses;
      ClassGeometry(slabClasses, slabClassByKey, slabPages[p].slabClass);
      LinkNonFullSlabPage(p);
      RelinkedPages(headers, places, pages, slabPages, classes, slabClasses, slabClassByKey, free, blocks, slabPagesByAddressPage);
      NewPageIsListed(pages, slabPages, classes, slabClasses, nonFull, p);
    }

    /** Carves a slab page out of a block malloc has just returned. */
    method PlaceSlabPage(k: nat, base: nat, stale: nat -> AllocationHeader) returns (p: nat)
      requires k < |slabClasses|
      requires base in blocks && blocks[base] == Block(EMPTY_PAGE_BYTES, Unowned)
      requires 0 < base && base + EMPTY_PAGE_BYTES <= WORD_LIMIT
      requires ValidWithNewBlock(base)
      requires forall a: nat {:trigger stale(a)} :: !stale(a).live
      modifies `headers, `slabClasses, `slabPages, `slabPagesByAddressPage, `free, `nonFull, `places, `blocks
      ensures Valid()
      ensures p != 0 && p in slabPages && slabPages[p].slabClass == k && Listed(slabPages, nonFull, p)
      ensures p !in old(slabPages) && PagesButOne(old(slabPages), slabPages, p)
      ensures SameGeometry(old(slabClasses), slabClasses)
      ensures KeepsHeaders(old(headers), headers, active)
    {
      hide ActiveList, LiveIffActive, ClassesOK, PagesOK, NonFullOK, PlacesOK, SlotsPlaced, BlocksApart, BlocksOwned,
        SlabMapOK, SystemMapOK, AlignUp, FreshRange, StaleSlots, SlotPlaces, SamePagesOffLinks, GeometryOK, HasFreeSlots, Listed,
        SlabMapped, SameGeometry, KeepsHeaders, PagesButOne;
      ghost var knownBlocks := blocks - {base};
      SlabPageLayout(base);
      p := AlignUp(base, ADDRESS_PAGE_BYTES);
      var pg := SlabPage(k, base, 0, 0, 0, 0, 0);
      AddSlabPage(headers, active, activeHead, places, slabPages, slabClasses, slabClassByKey, free, knownBlocks, systemHeadersByPage,
                  nonFull, p, pg, stale);
      assert blocks == knownBlocks[base := Block(EMPTY_PAGE_BYTES, Unowned)];
      ClaimBlock(knownBlocks, base, EMPTY_PAGE_BYTES, PageBlock(p));
      blocks := blocks[base := Block(EMPTY_PAGE_BYTES, PageBlock(p))];
      headers := headers + StaleSlots(slabClasses[k], p, stale, slabClasses[k].slotsPerPage);
      places := places + SlotPlaces(slabClasses[k], p, slabClasses[k].slotsPerPage);
      slabPages := slabPages[p := pg];
      free := free[p := []];
      RegisterSlabPageMappings(p);
      NewPageKeepsSlabMap(old(slabPagesByAddressPage), slabPagesByAddressPage, p, pg, headers, old(slabPages), slabClasses, free, blocks);
      ListNewPage(p);
      RelinkedButOne(old(slabPages), slabPages, pg, p);
    }

    /** createSlabPage: 0 when malloc refuses, otherwise a listed page with every slot unused. */
    method CreateSlabPage(k: nat, os: MallocOracle) returns (p: nat)
      requires Valid() && OracleSound(os, blocks) && k < |slabClasses|
      modifies this
      ensures SameAccounting(old(collectionCount), old(trackedHeapBytes), old(gcRequested), old(heapLimitBytes))
      ensures Valid()
      ensures p == 0 <==> os.base(EMPTY_PAGE_BYTES).None?
      ensures p == 0 ==> blocks == old(blocks) && headers == old(headers) && slabClasses == old(slabClasses) && slabPages == old(slabPages)
      ensures p != 0 ==> p in slabPages && slabPages[p].slabClass == k && Listed(slabPages, nonFull, p)
      ensures p != 0 ==> p !in old(slabPages) && PagesButOne(old(slabPages), slabPages, p)
      ensures SameGeometry(old(slabClasses), slabClasses)
      ensures active == old(active) && KeepsHeaders(old(headers), headers, active) && KeepsWords(old(words), words, old(blocks))
    {
      hide ActiveList, LiveIffActive, ClassesOK, PagesOK, NonFullOK, PlacesOK, SlotsPlaced, BlocksApart, BlocksOwned,
        SlabMapOK, SystemMapOK, FreshRange, Listed;
      var base := Malloc(EMPTY_PAGE_BYTES, os);
      if base.None? {
        return 0;
      }
      assert blocks - {base.value} == old(blocks);
      p := PlaceSlabPage(k, base.value, os.staleHeader);
    }

    /** Writes header a of page p; the page leaves its class's list when this was its last slot. */
    method FillSlot(p: nat, a: nat, hd: AllocationHeader, pg: SlabPage, ghost k: nat, ghost f: seq<nat>)
      requires Valid()
      requires p != 0 && p in slabPages && slabPages[p].slabClass < |slabClasses| && p in free && Listed(slabPages, nonFull, p)
      requires SlotTaken(headers, hd, slabClasses[slabPages[p].slabClass], p, slabPages[p], free[p], a, k, pg, f)
      requires HeaderOK(hd) && hd.storageKind == SlabStorage && hd.storageOwner == p && hd.live
      requires hd.payloadSize == Max(slabClasses[slabPages[p].slabClass].payloadSize, 1)
      modifies `headers, `slabClasses, `slabPages, `free, `nonFull
      ensures AwaitingLink(a) && headers == old(headers)[a := hd]
      ensures SamePagesOffLinks(old(slabPages)[p := pg], slabPages)
    {
      hide ActiveList, LiveIffActive, ClassesOK, PagesOK, NonFullOK, PlacesOK, SlotsPlaced, BlocksApart, BlocksOwned,
        SlabMapOK, SystemMapOK, SameOffList, SamePagesOffLinks, SameGeometry, PageOK, HeaderOK, SlotAddress, HasFreeSlots;
      TakenSlotKeepsRegistry(headers, hd, active, activeHead, places, slabPages, slabClasses, free, blocks, systemHeadersByPage, nonFull,
                             slabPagesByAddressPage, p, a, k, pg, f);
      headers := headers[a := hd];
      slabPages := slabPages[p := pg];
      free := free[p := f];
      hide SlotTaken;
      ghost var pages, classes := slabPages, slabClasses;
      SamePages(pages);
      if !HasFreeSlots(slabPages[p], slabClasses) {
        UnlinkNonFullSlabPage(p);
        KeptFreeSlots(pages, slabPages, classes, slabClasses, p);
        RelinkedPages(headers, places, pages, slabPages, classes, slabClasses, slabClassByKey, free, blocks, slabPagesByAddressPage);
      }
      hide Listed;
      ListedExactly(slabPages, slabClasses, nonFull, p);
    }

    /** Puts a header that is ready on the active list. */
    method LinkReadyAllocation(a: nat)
      requires AwaitingLink(a)
      modifies `headers, `activeHead, `active
      ensures Valid() && active == [a] + old(active) && SameOffList(old(headers), headers, active)
    {
      hide ActiveList, LiveIffActive, ClassesOK, PagesOK, NonFullOK, PlacesOK, SlotsPlaced, BlocksApart, BlocksOwned,
        SlabMapOK, SystemMapOK, SameOffList;
      ghost var h := headers;
      LinkActiveAllocation(a);
      RelinkedActive(h, headers, active, places, slabPages, slabClasses, free, blocks, systemHeadersByPage);
    }

    /** Writes the header of a taken slot and publishes it on the active list. */
    method PublishSlot(p: nat, a: nat, hd: AllocationHeader, pg: SlabPage, ghost k: nat, ghost f: seq<nat>)
      requires Valid()
      requires p != 0 && p in slabPages && slabPages[p].slabClass < |slabClasses| && p in free && Listed(slabPages, nonFull, p)
      requires SlotTaken(headers, hd, slabClasses[slabPages[p].slabClass], p, slabPages[p], free[p], a, k, pg, f)
      requires HeaderOK(hd) && hd.storageKind == SlabStorage && hd.storageOwner == p
      requires hd.live && !hd.marked && hd.prev == 0 && hd.next == 0
      requires hd.payloadSize == Max(slabClasses[slabPages[p].slabClass].payloadSize, 1)
      modifies `headers, `activeHead, `slabClasses, `slabPages, `active, `free, `nonFull
      ensures Valid()
      ensures Added(old(headers), old(active), headers, active, Allocation(a, hd.kind, hd.elementCount, hd.payloadSize, hd.typeDescriptor))
      ensures a in headers && headers[a].storageKind == SlabStorage
      ensures SamePagesOffLinks(old(slabPages)[p := pg], slabPages)
    {
      hide ActiveList, LiveIffActive, ClassesOK, PagesOK, NonFullOK, PlacesOK, SlotsPlaced, BlocksApart, BlocksOwned,
        SlabMapOK, SystemMapOK, SameOffList, Added, HeaderOK, SlotTaken, Listed;
      FillSlot(p, a, hd, pg, k, f);
      LinkReadyAllocation(a);
      AddedByLink(old(headers), old(headers)[a := hd], headers, old(active), a, hd);
    }

    /** Hands out a slot of page p, which must have one: the slot given back last, else the next unused one. */
    method TakeSlot(p: nat, payloadSize: Word, typeDescriptor: Option<Descriptor>) returns (payload: nat)
      requires Valid()
      requires p in slabPages && slabPages[p].slabClass < |slabClasses| && Listed(slabPages, nonFull, p)
      requires slabClasses[slabPages[p].slabClass].payloadSize == payloadSize
      requires slabClasses[slabPages[p].slabClass].alignment > 0
      requires DescriptorFits(ObjectKind, 1, payloadSize, typeDescriptor)
      modifies `headers, `activeHead, `slabClasses, `slabPages, `active, `free, `nonFull
      ensures Valid()
      ensures payload > HEADER_BYTES && IsMultiple(payload, old(slabClasses[slabPages[p].slabClass].alignment))
      ensures PagesButOne(old(slabPages), slabPages, p) && p in slabPages && slabPages[p].liveCount == old(slabPages[p].liveCount) + 1
      ensures old(slabPages[p].freeList) != 0 ==> payload == old(slabPages[p].freeList) + HEADER_BYTES
      ensures old(slabPages[p].freeList) != 0 ==> slabPages[p].nextUnusedSlot == old(slabPages[p].nextUnusedSlot)
      ensures payload - 80 in headers && headers[payload - 80].storageKind == SlabStorage
      ensures Added(old(headers), old(active), headers, active,
                    Allocation(payload - HEADER_BYTES, ObjectKind, 1, Max(payloadSize, 1), typeDescriptor))
    {
      hide ActiveList, LiveIffActive, ClassesOK, PagesOK, NonFullOK, PlacesOK, SlotsPlaced, BlocksApart, BlocksOwned,
        SlabMapOK, SystemMapOK, DescriptorFits, Added, Listed, GeometryOK, PageOK, IsMultiple, HeaderOK, SlotAddress,
        SamePagesOffLinks, PagesButOne;
      var pg := slabPages[p];
      var c := slabClasses[pg.slabClass];
      var hd := NewHeader(ObjectKind, SlabStorage, payloadSize, 1, typeDescriptor, p);
      PageFacts(headers, slabPages, slabClasses, slabClassByKey, free, blocks, nonFull, p);
      NewSlotHeaderOK(payloadSize, typeDescriptor, p);
      var a;
      ghost var k, f := pg.nextUnusedSlot, [];
      if pg.freeList != 0 {
        PoppedPage(headers, hd, c, p, pg, free[p]);
        k, f := free[p][0], free[p][1..];
        a := pg.freeList;
        pg := pg.(freeList := headers[a].next);
      } else {
        BumpedPage(headers, hd, c, p, pg, free[p]);
        a := SlabHeaderAt(c, p, pg.nextUnusedSlot);
        pg := pg.(nextUnusedSlot := pg.nextUnusedSlot + 1);
      }
      pg := pg.(liveCount := pg.liveCount + 1);
      SlotPayloadIsAligned(c, p, k);
      PublishSlot(p, a, hd, pg, k, f);
      RelinkedButOne(old(slabPages), slabPages, pg, p);
      payload := a + HEADER_BYTES;
    }

    /** Some page of the class of this size and alignment has a free slot. */
    ghost predicate RoomFor(payloadSize: nat, alignment: nat)
      reads this
    {
      exists p :: HasRoom(slabPages, slabClasses, p, payloadSize, alignment)
    }

    /** The first page of the class that has room, or a new page when none has; 0 when malloc refuses one. */
    method PageWithRoom(payloadSize: Word, alignment: Word, os: MallocOracle) returns (page: nat)
      requires Valid() && OracleSound(os, blocks)
      requires IsSlabAlignment(alignment) && payloadSize <= MAX_SLAB_PAYLOAD
      modifies this
      ensures SameAccounting(old(collectionCount), old(trackedHeapBytes), old(gcRequested), old(heapLimitBytes))
      ensures Valid()
      ensures page == 0 ==> NewSlabClass(payloadSize, alignment).None? || os.base(EMPTY_PAGE_BYTES).None?
      ensures page == 0 ==> blocks == old(blocks) && headers == old(headers) && slabPages == old(slabPages)
      ensures page != 0 ==> page in slabPages && slabPages[page].slabClass < |slabClasses| && Listed(slabPages, nonFull, page)
      ensures page != 0 ==> slabClasses[slabPages[page].slabClass].payloadSize == payloadSize
      ensures page != 0 ==> slabClasses[slabPages[page].slabClass].alignment == alignment
      ensures old(RoomFor(payloadSize, alignment)) ==> page != 0 && blocks == old(blocks)
      ensures slabPages == old(slabPages) || PagesButOne(old(slabPages), slabPages, page)
      ensures active == old(active) && KeepsHeaders(old(headers), headers, active) && KeepsWords(old(words), words, old(blocks))
    {
      hide ActiveList, LiveIffActive, ClassesOK, PagesOK, NonFullOK, PlacesOK, SlotsPlaced, BlocksApart, BlocksOwned,
        SlabMapOK, SystemMapOK, Listed, FreshRange, PagesButOne, HasRoom, NewSlabClass;
      RoomNeedsClass(slabPages, slabClasses, payloadSize, alignment);
      var slabClass := GetOrCreateSlabClass(payloadSize, alignment);
      hide ClassExists;
      hide ClassExists;
      if slabClass.None? {
        return 0;
      }
      var k := slabClass.value;
      RoomStays(slabPages, old(slabClasses), slabClasses, slabClassByKey, nonFull, payloadSize, alignment, k);
      page := slabClasses[k].nonFullPages;
      if page == 0 {
        page := CreateSlabPage(k, os);
      } else {
        HeadPageIsListed(slabPages, slabClasses, nonFull, k);
      }
    }

    /** allocateSlabTrackedLocked: the first page with a free slot, or a new one; 0 when malloc refuses a page. */
    method AllocateSlabTrackedLocked(payloadSize: Word, alignment: Word, typeDescriptor: Option<Descriptor>, os: MallocOracle) returns (payload: nat)
      requires Valid() && OracleSound(os, blocks)
      requires IsSlabAlignment(alignment) && payloadSize <= MAX_SLAB_PAYLOAD
      requires DescriptorFits(ObjectKind, 1, payloadSize, typeDescriptor)
      modifies this
      ensures SameAccounting(old(collectionCount), old(trackedHeapBytes), old(gcRequested), old(heapLimitBytes))
      ensures Valid()
      ensures payload == 0 ==> blocks == old(blocks) && headers == old(headers) && active == old(active)
      ensures payload == 0 ==> os.base(65536 + 4096 - 1).None?
      ensures payload != 0 ==> payload > 80 && payload - 80 in headers && headers[payload - 80].storageKind == SlabStorage
      ensures old(RoomFor(payloadSize, alignment)) ==> payload != 0 && blocks == old(blocks)
      ensures old(Thrifty()) ==> Thrifty()
      ensures payload != 0 ==> payload > HEADER_BYTES && IsMultiple(payload, alignment)
      ensures payload != 0 ==> Added(old(headers), old(active), headers, active,
                                     Allocation(payload - HEADER_BYTES, ObjectKind, 1, Max(payloadSize, 1), typeDescriptor))
      ensures KeepsWords(old(words), words, old(blocks))
    {
      hide ActiveList, LiveIffActive, ClassesOK, PagesOK, NonFullOK, PlacesOK, SlotsPlaced, BlocksApart, BlocksOwned,
        SlabMapOK, SystemMapOK, DescriptorFits, Added, Listed, IsMultiple, FreshRange, HasRoom, NewSlabClass, PagesButOne, NoIdlePage;
      ghost var pages := slabPages;
      var page := PageWithRoom(payloadSize, alignment, os);
      if page == 0 {
        NewSlabClassGeometry(payloadSize, alignment);
        return 0;
      }
      ghost var h, pages' := headers, slabPages;
      payload := TakeSlot(page, payloadSize, typeDescriptor);
      BusyAfterTaking(pages, pages', slabPages, page);
      AddedAfterKeeping(old(headers), h, headers, old(active), active,
                        Allocation(payload - HEADER_BYTES, ObjectKind, 1, Max(payloadSize, 1), typeDescriptor));
    }

    // ----- Reclamation -----

    method UnregisterSlabPageMappings(p: nat)
      requires p % ADDRESS_PAGE_BYTES == 0
      modifies `slabPagesByAddressPage
      ensures SlabUnmapped(old(slabPagesByAddressPage), slabPagesByAddressPage, p / ADDRESS_PAGE_BYTES, p / ADDRESS_PAGE_BYTES + SLAB_ADDRESS_PAGES)
    {
      SlabPageSpan(p);
      var firstPage := p / ADDRESS_PAGE_BYTES;
      var lastPage := (p + SLAB_PAGE_BYTES - 1) / ADDRESS_PAGE_BYTES;
      var page := firstPage;
      while page <= lastPage
        invariant firstPage <= page <= lastPage + 1
        invariant SlabUnmapped(old(slabPagesByAddressPage), slabPagesByAddressPage, firstPage, page)
      {
        UnmapOneMore(old(slabPagesByAddressPage), slabPagesByAddressPage, firstPage, page);
        slabPagesByAddressPage := slabPagesByAddressPage - {page};
        page := page + 1;
      }
    }

    method ReleaseSlabPage(p: nat)
      requires ValidExcept(p) && p != 0 && p in slabPages && p % ADDRESS_PAGE_BYTES == 0 && slabPages[p].liveCount == 0
      modifies `headers, `slabClasses, `slabPages, `slabPagesByAddressPage, `free, `nonFull, `places, `blocks
      ensures Valid()
      ensures KeepsHeaders(old(headers), headers, active)
      ensures p !in slabPages && PagesButOne(old(slabPages), slabPages, p)
    {
      hide ActiveList, LiveIffActive, ClassesOK, PagesOK, NonFullOK, PlacesOK, SlotsPlaced, BlocksApart, BlocksOwned,
        SlabMapOK, SystemMapOK, SamePagesOffLinks, SameGeometry, Listed, SlabUnmapped, KeepsHeaders;
      ghost var pages, classes := slabPages, slabClasses;
      UnlinkNonFullSlabPage(p);
      RelinkedPages(headers, places, pages, slabPages, classes, slabClasses, slabClassByKey, free, blocks, slabPagesByAddressPage);
      CoreKept(pages, slabPages, p);
      UnregisterSlabPageMappings(p);
      var base := slabPages[p].allocationBase;
      RemoveSlabPage(headers, active, activeHead, places, slabPages, slabClasses, slabClassByKey, free, blocks, systemHeadersByPage,
                     nonFull, old(slabPagesByAddressPage), slabPagesByAddressPage, p);
      Free(base);
      slabPages := slabPages - {p};
      free := free - {p};
    }

    /** reclaimAllocation for a header that owns its raw block. */
    method ReclaimSystem(a: nat)
      requires UnlinkedFrom(a) && a in headers && headers[a].live && headers[a].storageKind == SystemStorage
      modifies `headers, `systemHeadersByPage, `places, `blocks
      ensures Valid()
      ensures KeepsHeaders(old(headers), headers, active)
    {
      hide ActiveList, ClassesOK, PagesOK, NonFullOK, PlacesOK, SlotsPlaced, BlocksApart, BlocksOwned,
        SlabMapOK, SystemMapOK, KeepsHeaders, LiveButFor, Unregistered;
      ghost var h := headers;
      SystemPlaceOf(a, headers, places, slabPages, slabClasses, blocks);
      var base := headers[a].storageOwner;
      BucketsDistinct(systemHeadersByPage, headers, places);
      headers := headers[a := headers[a].(live := false, marked := false)];
      UnregisterSystemAllocationPages(a);
      RemoveSystemAllocation(h, headers, a, active, activeHead, places, slabPages, slabClasses, slabClassByKey, free, blocks,
                             old(systemHeadersByPage), systemHeadersByPage);
      Free(base);
    }

    /** reclaimAllocation for a slab slot: back on the free list, or the whole page back to malloc. */
    method ReclaimSlot(a: nat)
      requires UnlinkedFrom(a) && a in headers && headers[a].live && headers[a].storageKind == SlabStorage
      modifies `headers, `slabClasses, `slabPages, `slabPagesByAddressPage, `free, `nonFull, `places, `blocks
      ensures Valid() && (old(Thrifty()) ==> Thrifty())
      ensures KeepsHeaders(old(headers), headers, active)
    {
      hide ActiveList, LiveIffActive, ClassesOK, PagesOK, NonFullOK, PlacesOK, SlotsPlaced, BlocksApart, BlocksOwned,
        SlabMapOK, SystemMapOK, KeepsHeaders, LiveButFor, SamePagesOffLinks, SameGeometry, PageOK, GeometryOK, Listed;
      SlotPlaceOf(a, headers, places, slabPages, slabClasses, blocks);
      var p := headers[a].storageOwner;
      ghost var h, pages0 := headers, slabPages;
      PageFacts(headers, slabPages, slabClasses, slabClassByKey, free, blocks, nonFull, p);
      var wasFull := !HasFreeSlots(slabPages[p], slabClasses);
      var hd := headers[a].(live := false, marked := false, next := slabPages[p].freeList);
      RetiredPage(headers, hd, a, places, slabPages, slabClasses, slabClassByKey, free, blocks);
      var pg := slabPages[p].(freeList := a, liveCount := slabPages[p].liveCount - 1);
      ghost var f := [places[a].index] + free[p];
      RetiredSlotKeepsRegistry(headers, hd, active, activeHead, a, places, slabPages, slabClasses, free, blocks, systemHeadersByPage,
                               nonFull, slabPagesByAddressPage, p, places[a].index, pg, f);
      RetiredKeepsOthers(headers, hd, a, active);
      headers := headers[a := hd];
      slabPages := slabPages[p := pg];
      free := free[p := f];
      if slabPages[p].liveCount == 0 {
        ghost var h1 := headers;
        ReleaseSlabPage(p);
        KeepsHeadersTransitive(h, h1, headers, active);
        return;
      }
      ghost var pages, classes := slabPages, slabClasses;
      ListedIgnoresCounts(pages0, nonFull, p, pg);
      if wasFull {
        LinkNonFullSlabPage(p);
        RelinkedPages(headers, places, pages, slabPages, classes, slabClasses, slabClassByKey, free, blocks, slabPagesByAddressPage);
      } else {
        SamePages(pages);
        ListedExactly(slabPages, slabClasses, nonFull, p);
      }
      RelinkedButOne(old(slabPages), slabPages, pg, p);
      if NoIdlePage(old(slabPages)) {
        BusyButOne(old(slabPages), slabPages, p);
      }
    }

    method ReclaimAllocation(a: nat)
      requires Valid() && a in active
      modifies this
      ensures Valid() && words == old(words)
      ensures SameAccounting(old(collectionCount), old(trackedHeapBytes), old(gcRequested), old(heapLimitBytes))
      ensures active == Remove(old(active), a)
      ensures old(Thrifty()) ==> Thrifty()
      ensures KeepsHeaders(old(headers), headers, active)
    {
      hide ActiveList, LiveIffActive, ClassesOK, PagesOK, NonFullOK, PlacesOK, SlotsPlaced, BlocksApart, BlocksOwned,
        SlabMapOK, SystemMapOK, KeepsHeaders, LiveButFor, SameOffList, NoIdlePage;
      ActiveIsLive(headers, active, a);
      UnlinkActiveAllocation(a);
      UnlinkedIsLiveButFor(old(headers), headers, old(active), active, a);
      RelinkedActive(old(headers), headers, old(active), places, slabPages, slabClasses, free, blocks, systemHeadersByPage);
      ghost var h := headers;
      if headers[a].storageKind == SystemStorage {
        ReclaimSystem(a);
      } else {
        ReclaimSlot(a);
      }
      KeepsHeadersTransitive(old(headers), h, headers, active);
    }

    // ----- Owner lookup -----

    /** The allocations clients hold, in list order. */
    ghost function Allocations(): seq<Allocation>
      requires LiveIffActive(headers, active)
      reads this
    {
      AllocationsOf(headers, active)
    }

    /** findOwningAllocation finds what a linear search of the active list would. */
    method FindOwningAllocation(address: nat) returns (header: nat)
      requires Valid()
      ensures header == OwnerIn(Allocations(), address)
      ensures header != 0 ==> header in active && header in headers
      ensures header != 0 ==> header + 80 <= address < header + 80 + headers[header].payloadSize
      ensures header == 0 ==> forall a :: a in active && a in headers ==> !(a + 80 <= address < a + 80 + headers[a].payloadSize)
    {
      PlacesKeys(headers, places, slabPages, slabClasses, blocks);
      ActiveIsNotNull(headers, active, activeHead);
      OwnerIsInside(headers, active, address);
      hide ActiveList, ClassesOK, PagesOK, NonFullOK, PlacesOK, SlotsPlaced, BlocksApart, BlocksOwned,
        SlabMapOK, SystemMapOK;
      var page := address / ADDRESS_PAGE_BYTES;
      if page in slabPagesByAddressPage {
        SlabMapEntry(page, address, slabPagesByAddressPage, slabPages, headers, slabClasses, free, blocks);
        var p := slabPagesByAddressPage[page];
        PageFacts(headers, slabPages, slabClasses, slabClassByKey, free, blocks, nonFull, p);
        hide PageOK, FindOwningSlabAllocation;
        var c := slabClasses[slabPages[p].slabClass];
        StrideIsPositive(c);
        SlabLookupIsExact(address, p, c, headers, active, places, slabPages, slabClasses, slabClassByKey, free, blocks);
        header := FindOwningSlabAllocation(headers, c, p, address);
        if header != 0 {
          OwnerIsUnique(headers, active, header, address, places, slabPages, slabClasses, slabClassByKey, free, blocks, activeHead);
          return;
        }
      }
      SlabSearchFailed(address, headers, active, places, slabPages, slabClasses, slabClassByKey, free, blocks, slabPagesByAddressPage);
      header := FindInSystemBucket(address);
      if header != 0 {
        OwnerIsUnique(headers, active, header, address, places, slabPages, slabClasses, slabClassByKey, free, blocks, activeHead);
      } else {
        NoOwner(headers, active, address);
      }
    }

    /** The search of one systemHeadersByPage bucket. */
    method FindInSystemBucket(address: nat) returns (header: nat)
      requires Valid()
      ensures header != 0 ==> header in active && header in headers && PayloadContains(headers[header], header, address)
      ensures header == 0 ==> forall a :: a in active && a in headers && a in places && places[a].SystemPlace? ==>
                                !PayloadContains(headers[a], a, address)
    {
      hide ActiveList, ClassesOK, PagesOK, NonFullOK, PlacesOK, SlotsPlaced, BlocksApart, BlocksOwned,
        SlabMapOK, SystemMapOK;
      var page := address / ADDRESS_PAGE_BYTES;
      forall a | a in headers && a in places && places[a].SystemPlace? && PayloadContains(headers[a], a, address)
        ensures page in systemHeadersByPage && a in systemHeadersByPage[page]
      {
        SystemOwnerIsMapped(a, address, headers, places, systemHeadersByPage);
      }
      if page !in systemHeadersByPage {
        return 0;
      }
      var bucket := systemHeadersByPage[page];
      BucketHeaders(bucket, page, headers, places, systemHeadersByPage);
      var i := 0;
      while i < |bucket|
        invariant i <= |bucket|
        invariant forall a :: a in bucket[..i] && headers[a].live ==> !PayloadContains(headers[a], a, address)
      {
        header := bucket[i];
        assert header in bucket;
        var hd := headers[header];
        if hd.live {
          LastAddressIsExact(header, headers, places, slabPages, slabClasses, slabClassByKey, free, blocks);
          var start := PayloadAddress(header);
          var last := AllocationLastAddress(start, hd.payloadSize);
          if start <= address <= last {
            ActiveIsNotNull(headers, active, activeHead);
            return;
          }
        }
        i := i + 1;
      }
      header := 0;
    }

    // ----- Marking -----

    /** markAllocation: sets the mark bit and queues the payload, once. */
    method MarkAllocation(header: nat, work: seq<nat>) returns (work': seq<nat>)
      requires Valid() && header in active && header in headers
      modifies `headers
      ensures Valid() && Allocations() == old(Allocations())
      ensures MarkedFrom(old(headers), work, headers, work', active, {header})
    {
      hide ActiveList, LiveIffActive, ClassesOK, PagesOK, NonFullOK, PlacesOK, SlotsPlaced, BlocksApart, BlocksOwned, SlabMapOK, SystemMapOK,
        MarkedFrom, SameButMarks;
      if headers[header].marked {
        MarkedAlready(headers, work, active, header);
        return work;
      }
      MarkOne(headers, work, active, header);
      headers := headers[header := headers[header].(marked := true)];
      work' := work + [PayloadAddress(header)];
      MarkedKeepsValid(old(headers), headers, work, work', active, {header}, activeHead, places, slabPages, slabClasses,
                       free, blocks, systemHeadersByPage);
    }

    /** Marks the owner of an address, if it has one, and queues it when newly marked. */
    method MarkAddress(address: nat, work: seq<nat>) returns (work': seq<nat>)
      requires Valid()
      modifies `headers
      ensures Valid() && Allocations() == old(Allocations())
      ensures MarkedFrom(old(headers), work, headers, work', active, Owners(Allocations(), [address]))
    {
      hide ActiveList, ClassesOK, PagesOK, NonFullOK, PlacesOK, SlotsPlaced, BlocksApart, BlocksOwned, SlabMapOK, SystemMapOK,
        MarkedFrom, Owners, SameButMarks;
      OwnersOfOne(Allocations(), address);
      NothingMarked(headers, work, active);
      if address == 0 {
        ActiveIsNotNull(headers, active, activeHead);
        AllocationsMembers(headers, active);
        NullHasNoOwner(Allocations());
        return work;
      }
      var header := FindOwningAllocation(address);
      if header == 0 {
        return work;
      }
      work' := MarkAllocation(header, work);
    }

    /** The slot loop of scanAllocationPayload: marks the owners of the words of one element. */
    method ScanElement(d: Descriptor, base: nat, work: seq<nat>) returns (work': seq<nat>)
      requires Valid()
      modifies `headers
      ensures Valid() && Allocations() == old(Allocations())
      ensures MarkedFrom(old(headers), work, headers, work', active, Owners(Allocations(), Loads(words, SlotReads(d, base, d.referenceSlotCount))))
    {
      hide ActiveList, LiveIffActive, ClassesOK, PagesOK, NonFullOK, PlacesOK, SlotsPlaced, BlocksApart, BlocksOwned, SlabMapOK, SystemMapOK,
        MarkedFrom, Owners;
      work' := work;
      NothingMarked(headers, work, active);
      NoOwners(Allocations());
      var slotIndex := 0;
      while slotIndex < d.referenceSlotCount
        invariant slotIndex <= d.referenceSlotCount
        invariant Valid() && Allocations() == old(Allocations())
        invariant MarkedFrom(old(headers), work, headers, work', active, Owners(Allocations(), Loads(words, SlotReads(d, base, slotIndex))))
      {
        if d.referenceSlotOffsets.None? {
          NoSlotReads(d, base, slotIndex, d.referenceSlotCount);
          break;
        }
        var offset := d.referenceSlotOffsets.value[slotIndex];
        slotIndex := slotIndex + 1;
        if (offset + WORD_BYTES) % WORD_LIMIT > d.instanceSize {
          NoMoreReads(d, base, slotIndex);
          continue;
        }
        var address := (base + offset) % WORD_LIMIT;
        var candidate := Load(words, address);
        ghost var h, w := headers, work';
        work' := MarkAddress(candidate, work');
        MarkedOneMore(old(headers), work, h, w, headers, work', active, Allocations(), words, SlotReads(d, base, slotIndex - 1), address);
        assert SlotReads(d, base, slotIndex) == SlotReads(d, base, slotIndex - 1) + [address];
      }
    }

    /** scanAllocationPayload: marks the owner of every word the allocation holds in a scanned position. */
    method ScanAllocationPayload(header: nat, work: seq<nat>) returns (work': seq<nat>)
      requires Valid() && header in active && header in headers
      modifies `headers
      ensures Valid() && Allocations() == old(Allocations())
      ensures MarkedFrom(old(headers), work, headers, work', active, Owners(Allocations(), Loads(words, Reads(AllocationAt(old(headers), header)))))
    {
      hide ActiveList, LiveIffActive, ClassesOK, PagesOK, NonFullOK, PlacesOK, SlotsPlaced, BlocksApart, BlocksOwned, SlabMapOK, SystemMapOK,
        MarkedFrom, Owners, Loads, SlotReads;
      work' := work;
      NothingMarked(headers, work, active);
      NoOwners(Allocations());
      NoLoads(words);
      var start, hd := PayloadAddress(header), headers[header];
      if hd.typeDescriptor.Some? && hd.typeDescriptor.value.instanceSize != 0 {
        var d := hd.typeDescriptor.value;
        var elementCount := if hd.kind == ArrayKind then hd.elementCount else 1;
        var elementIndex := 0;
        while elementIndex < elementCount
          invariant elementIndex <= elementCount
          invariant Valid() && Allocations() == old(Allocations())
          invariant MarkedFrom(old(headers), work, headers, work', active, Owners(Allocations(), Loads(words, ElementReads(d, start, elementIndex))))
        {
          var elementBase := start + elementIndex * d.instanceSize;
          SlotOffsetIsProduct(d.instanceSize, elementIndex);
          ghost var h, w := headers, work';
          work' := ScanElement(d, elementBase, work');
          MarkedMore(old(headers), work, h, w, headers, work', active, Allocations(), words,
                     ElementReads(d, start, elementIndex), SlotReads(d, elementBase, d.referenceSlotCount));
          elementIndex := elementIndex + 1;
        }
        return;
      }
      work' := ScanWords(start, hd.payloadSize, work);
    }

    /** The untyped branch of scanAllocationPayload: every aligned word is a candidate. */
    method ScanWords(start: nat, payloadSize: nat, work: seq<nat>) returns (work': seq<nat>)
      requires Valid()
      modifies `headers
      ensures Valid() && Allocations() == old(Allocations())
      ensures MarkedFrom(old(headers), work, headers, work', active, Owners(Allocations(), Loads(words, WordReads(start, payloadSize / WORD_BYTES))))
    {
      hide ActiveList, LiveIffActive, ClassesOK, PagesOK, NonFullOK, PlacesOK, SlotsPlaced, BlocksApart, BlocksOwned, SlabMapOK, SystemMapOK,
        MarkedFrom, Owners, Loads;
      work' := work;
      NothingMarked(headers, work, active);
      NoOwners(Allocations());
      NoLoads(words);
      var offset := 0;
      while offset + WORD_BYTES <= payloadSize
        invariant offset % WORD_BYTES == 0 && offset <= payloadSize
        invariant Valid() && Allocations() == old(Allocations())
        invariant MarkedFrom(old(headers), work, headers, work', active, Owners(Allocations(), Loads(words, WordReads(start, offset / WORD_BYTES))))
      {
        var candidate := Load(words, start + offset);
        ghost var h, w := headers, work';
        work' := MarkAddress(candidate, work');
        MarkedOneMore(old(headers), work, h, w, headers, work', active, Allocations(), words, WordReads(start, offset / WORD_BYTES), start + offset);
        offset := offset + WORD_BYTES;
      }
    }

    /** The root loop of collectManagedHeap. */
    method MarkRoots(roots: seq<nat>) returns (work: seq<nat>, rootCount: nat)
      requires Valid()
      modifies `headers
      ensures Valid() && Allocations() == old(Allocations())
      ensures MarkedFrom(old(headers), [], headers, work, active, Owners(Allocations(), roots))
      ensures rootCount == NonNullCount(roots)
    {
      hide ActiveList, LiveIffActive, ClassesOK, PagesOK, NonFullOK, PlacesOK, SlotsPlaced, BlocksApart, BlocksOwned, SlabMapOK, SystemMapOK,
        MarkedFrom, Owners;
      work, rootCount := [], 0;
      NothingMarked(headers, work, active);
      NoOwners(Allocations());
      var i := 0;
      while i < |roots|
        invariant i <= |roots|
        invariant Valid() && Allocations() == old(Allocations())
        invariant MarkedFrom(old(headers), [], headers, work, active, Owners(Allocations(), roots[..i]))
        invariant rootCount == NonNullCount(roots[..i])
      {
        ghost var h, w := headers, work;
        assert roots[..i + 1] == roots[..i] + [roots[i]];
        OwnersOfOneMore(Allocations(), roots[..i], roots[i]);
        if roots[i] == 0 {
          NullRootIsIgnored(headers, active, activeHead);
          assert Owners(Allocations(), roots[..i + 1]) == Owners(Allocations(), roots[..i]);
        } else {
          rootCount := rootCount + 1;
          work := MarkAddress(roots[i], work);
          MarkedThenMarked(old(headers), [], h, w, headers, work, active, Owners(Allocations(), roots[..i]), Owners(Allocations(), [roots[i]]));
        }
        i := i + 1;
      }
      assert roots[..i] == roots;
    }

    /** The mark phase: afterwards exactly the reachable allocations are marked. */
    method Mark(roots: seq<nat>) returns (rootCount: nat)
      requires Valid() && MarkedSet(headers, active) == {}
      modifies `headers
      ensures Valid() && Allocations() == old(Allocations())
      ensures MarkedSet(headers, active) == ReachableSet(Allocations(), words, roots)
      ensures rootCount == NonNullCount(roots)
    {
      hide ActiveList, ClassesOK, PagesOK, NonFullOK, PlacesOK, SlotsPlaced, BlocksApart, BlocksOwned, SlabMapOK, SystemMapOK,
        MarkedFrom, Owners, ScannedOrWaiting, MarkedIsReachable, Reads, Loads, Reachable, ReachableSet;
      ghost var allocs := Allocations();
      var work: seq<nat>;
      work, rootCount := MarkRoots(roots);
      RootsMarked(old(headers), headers, active, work, allocs, words, roots);
      while work != []
        invariant Valid() && Allocations() == allocs
        invariant WorkIsMarked(headers, active, work) && ScannedOrWaiting(headers, active, work, allocs, words)
        invariant MarkedIsReachable(headers, active, allocs, words, roots) && Owners(allocs, roots) <= MarkedSet(headers, active)
        decreases |UnmarkedSet(headers, active)|, |work|
      {
        var address := work[|work| - 1];
        ghost var h, w := headers, work;
        work := work[..|work| - 1];
        assert w == work + [address];
        assert address in w;
        var header := address - HEADER_BYTES;
        MagicOf(header, headers, active, places, slabPages, slabClasses, blocks);
        AllocationsMembers(headers, active);
        if headers[header].live && headers[header].marked && headers[header].magic == ALLOCATION_MAGIC {
          work := ScanAllocationPayload(header, work);
          AllocationScanned(h, headers, active, w[..|w| - 1], work, AllocationAt(h, header), allocs, words, roots);
          ScanProgress(h, headers, active, w, work, Owners(allocs, Loads(words, Reads(AllocationAt(h, header)))));
        }
      }
      MarkingIsExact(headers, active, allocs, words, roots);
    }

    // ----- Collection -----

    /** Walks the active list, counting objects and payload bytes. */
    method MeasureHeap() returns (objects: nat, bytes: nat)
      requires Valid()
      ensures objects == |Allocations()| && bytes == Bytes(Allocations())
    {
      hide ClassesOK, PagesOK, NonFullOK, PlacesOK, SlotsPlaced, BlocksApart, BlocksOwned, SlabMapOK, SystemMapOK, NoDuplicates;
      objects, bytes := 0, 0;
      var header := activeHead;
      while header != 0
        invariant objects <= |active| && header == At(active, objects)
        invariant bytes == HeaderBytes(headers, active[..objects])
        decreases |active| - objects
      {
        assert LinkedAt(headers, active, objects);
        assert active[..objects + 1] == active[..objects] + [active[objects]];
        HeaderBytesOfOneMore(headers, active[..objects], active[objects]);
        objects := objects + 1;
        bytes := bytes + headers[header].payloadSize;
        header := headers[header].next;
      }
      ListEndsAtNull(headers, active, activeHead, objects);
      assert active[..objects] == active;
      HeaderBytesAreBytes(headers, active);
    }

    /** The sweep: unmarked allocations are reclaimed while the list is being walked, marks are cleared. */
    method Sweep() returns (liveCount: nat, liveBytes: nat, sweptCount: nat, sweptBytes: nat)
      requires Valid()
      modifies this
      ensures Valid() && words == old(words)
      ensures SameAccounting(old(collectionCount), old(trackedHeapBytes), old(gcRequested), old(heapLimitBytes))
      ensures Allocations() == Keep(old(Allocations()), old(MarkedSet(headers, active)))
      ensures MarkedSet(headers, active) == {}
      ensures liveCount == |Allocations()| && liveBytes == Bytes(Allocations())
      ensures sweptCount == |old(Allocations())| - liveCount && sweptBytes == Bytes(old(Allocations())) - liveBytes
      ensures old(Thrifty()) ==> Thrifty()
    {
      hide ActiveList, LiveIffActive, ClassesOK, PagesOK, NonFullOK, PlacesOK, SlotsPlaced, BlocksApart, BlocksOwned, SlabMapOK, SystemMapOK,
        NoIdlePage, NoDuplicates, SweepState, MarkedSet, KeepsHeaders, Keep, Remove, Bytes, HeaderBytes;
      NoBytes(headers);
      ghost var h0, s0, marked := headers, active, MarkedSet(headers, active);
      ghost var done, kept, rest := [], [], active;
      liveCount, liveBytes, sweptCount, sweptBytes := 0, 0, 0, 0;
      var header := activeHead;
      SweepStart(headers, active, activeHead);
      while header != 0
        invariant Valid() && words == old(words)
        invariant SameAccounting(old(collectionCount), old(trackedHeapBytes), old(gcRequested), old(heapLimitBytes))
        invariant old(Thrifty()) ==> Thrifty()
        invariant SweepState(h0, s0, marked, headers, active, done, kept, rest)
        invariant header == At(rest, 0) && (header == 0 ==> rest == [])
        invariant liveCount == |kept| && liveBytes == HeaderBytes(h0, kept)
        invariant sweptCount == |done| - |kept| && sweptBytes == HeaderBytes(h0, done) - liveBytes
        decreases |rest|
      {
        ghost var h, s := headers, active;
        SweepSplit(h0, s0, headers, marked, active, done, kept, rest);
        NextInList(headers, active, activeHead, kept, rest);
        var next := headers[header].next;
        var size := headers[header].payloadSize;
        SweepSizes(h0, s0, headers, marked, active, done, kept, rest);
        if headers[header].marked {
          liveCount := liveCount + 1;
          liveBytes := liveBytes + size;
          UnmarkKeepsValid(headers, header, active, activeHead, places, slabPages, slabClasses, free, blocks, systemHeadersByPage);
          headers := headers[header := headers[header].(marked := false)];
          SweepKeeps(h0, s0, marked, h, active, done, kept, rest);
          kept := kept + [header];
        } else {
          sweptCount := sweptCount + 1;
          sweptBytes := sweptBytes + size;
          ReclaimAllocation(header);
          SweepDrops(h0, s0, marked, h, headers, s, active, activeHead, done, kept, rest);
        }
        done := done + [header];
        rest := rest[1..];
        header := next;
      }
      SweepEnd(h0, s0, marked, headers, active, done, kept);
    }

    /** collectManagedHeap: the active list is cut down, in order, to what the roots reach; survivors
        keep address, descriptor, size and contents; every mark is cleared again. */
    method CollectManagedHeap(roots: seq<nat>) returns (stats: GCCollectionStats)
      requires Valid() && MarkedSet(headers, active) == {}
      modifies this
      ensures Valid() && MarkedSet(headers, active) == {}
      ensures words == old(words) && gcRequested == old(gcRequested)
      ensures old(Thrifty()) ==> Thrifty()
      ensures Allocations() == Keep(old(Allocations()), ReachableSet(old(Allocations()), words, roots))
      ensures stats.collectionCount == collectionCount == old(collectionCount) + 1
      ensures stats.rootCount == NonNullCount(roots)
      ensures stats.heapObjectCountBefore == |old(Allocations())| && stats.heapBytesBefore == Bytes(old(Allocations()))
      ensures stats.liveObjectCount == stats.heapObjectCountAfter == |Allocations()|
      ensures stats.heapBytesAfter == trackedHeapBytes == Bytes(Allocations())
      ensures stats.sweptObjectCount == stats.heapObjectCountBefore - stats.heapObjectCountAfter
      ensures stats.sweptBytes == stats.heapBytesBefore - stats.heapBytesAfter
    {
      hide ActiveList, LiveIffActive, ClassesOK, PagesOK, NonFullOK, PlacesOK, SlotsPlaced, BlocksApart, BlocksOwned, SlabMapOK, SystemMapOK,
        MarkedSet, ReachableSet, Keep, NoIdlePage;
      collectionCount := collectionCount + 1;
      var objectsBefore, bytesBefore := MeasureHeap();
      var rootCount := Mark(roots);
      var liveCount, liveBytes, sweptCount, sweptBytes := Sweep();
      var objectsAfter, _ := MeasureHeap();
      ViewOfValid();
      BytesFitAWord(Allocations());
      trackedHeapBytes := liveBytes;
      stats := GCCollectionStats(collectionCount, rootCount, liveCount, sweptCount, sweptBytes, bytesBefore, liveBytes, objectsBefore, objectsAfter);
    }

    // ----- Allocation entry points -----

    method AllocateTrackedLocked(kind: AllocationKind, payloadSize: Word, elementCount: Word, alignment: Word,
                                 typeDescriptor: Option<Descriptor>, os: MallocOracle) returns (payload: nat)
      requires Valid() && OracleSound(os, blocks)
      requires kind == ObjectKind ==> elementCount == 1
      requires DescriptorFits(kind, elementCount, payloadSize, typeDescriptor)
      modifies this
      ensures Valid()
      ensures payload == 0 ==> Allocations() == old(Allocations()) && headers == old(headers)
      ensures alignment != 0 && !IsPowerOfTwo(alignment) ==> payload == 0
      ensures payload == 0 && (alignment == 0 || IsPowerOfTwo(alignment)) ==> IsRefused(payloadSize, alignment, os)
      ensures payload != 0 ==> payload > 80 && IsAlignedFor(payload, alignment)
      ensures payload != 0 ==>
        (Allocations() == [Allocation(payload - 80, kind, elementCount, Max(payloadSize, 1), typeDescriptor)] + old(Allocations()))
      ensures kind == ObjectKind && payloadSize <= 512 && (alignment == 0 || (IsPowerOfTwo(alignment) && alignment <= 64)) ==>
        var number := if alignment == 0 then 16 else if alignment < 8 then 8 else alignment;
        old(RoomFor(payloadSize, number)) ==> payload != 0 && blocks == old(blocks)
      ensures payload != 0 ==> payload - 80 in headers
      ensures payload != 0 && (kind == ArrayKind || payloadSize > 512 || alignment > 64) ==> headers[payload - 80].storageKind == SystemStorage
      ensures payload != 0 && kind == ObjectKind && payloadSize <= 512 && alignment <= 64 ==>
        headers[payload - 80].storageKind == SlabStorage || os.base(65536 + 4096 - 1).None?
      ensures old(Thrifty()) ==> Thrifty()
      ensures MarkedSet(headers, active) == old(MarkedSet(headers, active))
      ensures KeepsPayloads(old(words), words, old(Allocations()))
      ensures SameAccounting(old(collectionCount), old(trackedHeapBytes), old(gcRequested), old(heapLimitBytes))
    {
      hide ActiveList, LiveIffActive, ClassesOK, PagesOK, NonFullOK, PlacesOK, SlotsPlaced, BlocksApart, BlocksOwned, SlabMapOK, SystemMapOK,
        IsPowerOfTwo, IsMultiple, DescriptorFits, Added, KeepsWords, KeepsPayloads, MarkedSet, AlignUp, KeepsHeaders, FreshRange, SystemRequest,
        NoIdlePage, HasRoom, IsRefused, IsAlignedFor;
      NoWordChange(words, blocks);
      SmallPowers();
      var effective := if alignment == 0 then DEFAULT_ALIGNMENT else alignment;
      if !IsPowerOfTwo(effective) {
        PayloadsKept(headers, active, places, slabPages, slabClasses, slabClassByKey, free, blocks, words, words);
        return 0;
      }
      if effective < HEADER_ALIGNMENT {
        effective := HEADER_ALIGNMENT;
      }
      payload := 0;
      if ShouldUseSlabAllocator(kind, payloadSize, effective) {
        SmallPowersAreSlabAlignments(effective);
        payload := AllocateSlabTrackedLocked(payloadSize, effective, typeDescriptor, os);
      }
      if payload == 0 {
        ghost var w := words;
        payload := AllocateSystemTrackedLocked(kind, payloadSize, elementCount, effective, typeDescriptor, os);
        KeepsWordsTransitive(old(words), w, words, old(blocks));
        RefusedBy(payloadSize, alignment, effective, os);
      }
      PayloadsKept(old(headers), old(active), old(places), old(slabPages), old(slabClasses), old(slabClassByKey), old(free), old(blocks), old(words), words);
      if payload != 0 {
        RaisedAlignment(payload, alignment, effective);
        AddedToView(old(headers), old(active), headers, active,
                    Allocation(payload - HEADER_BYTES, kind, elementCount, Max(payloadSize, 1), typeDescriptor));
      }
    }

    /** recordManagedAllocation: counts the bytes and asks for a collection at the limit. */
    method RecordManagedAllocation(bytes: Word)
      modifies `trackedHeapBytes, `gcRequested
      ensures trackedHeapBytes == (old(trackedHeapBytes) + bytes) % WORD_LIMIT
      ensures gcRequested <==> old(gcRequested) || (bytes != 0 && trackedHeapBytes >= heapLimitBytes)
    {
      if bytes == 0 {
        return;
      }
      trackedHeapBytes := (trackedHeapBytes + bytes) % WORD_LIMIT;
      if trackedHeapBytes >= heapLimitBytes {
        gcRequested := true;
      }
    }

    /** The exchange in requestGC. */
    method RaiseGCRequest() returns (alreadyRequested: bool)
      requires Valid()
      modifies `gcRequested
      ensures gcRequested && alreadyRequested == old(gcRequested)
      ensures Valid() && Allocations() == old(Allocations())
    {
      alreadyRequested := gcRequested;
      gcRequested := true;
    }

    method ClearGCRequest()
      requires Valid()
      modifies `gcRequested
      ensures !gcRequested
      ensures Valid() && Allocations() == old(Allocations())
    {
      gcRequested := false;
    }

    /** A store of the mutator; the registry's own records are untouched. */
    method WriteWord(address: nat, value: Word)
      requires Valid()
      modifies `words
      ensures words == old(words)[address := value]
      ensures Valid() && Allocations() == old(Allocations()) && (old(Thrifty()) ==> Thrifty())
    {
      hide ActiveList, LiveIffActive, ClassesOK, PagesOK, NonFullOK, PlacesOK, SlotsPlaced, BlocksApart, BlocksOwned, SlabMapOK, SystemMapOK,
        NoIdlePage;
      words := words[address := value];
    }

    /** __mvm_malloc_typed. */
    method MallocTyped(descriptor: Option<Descriptor>, os: MallocOracle) returns (r: EntryResult)
      requires Valid() && OracleSound(os, blocks)
      modifies this
      ensures Valid()
      ensures r.Aborted? <==> descriptor.None? || descriptor.value.abiVersion != 1 || descriptor.value.instanceSize == 0
      ensures r.Aborted? || r.payload == 0 ==> Allocations() == old(Allocations())
      ensures r.Returned? && r.payload == 0 ==>
        var alignment := descriptor.value.instanceAlignment;
        var number := if alignment == 0 then 16 else if alignment < 8 then 8 else alignment;
        var request := 80 + (number - 1) + Max(descriptor.value.instanceSize, 1);
        || (alignment != 0 && !IsPowerOfTwo(alignment))
        || request >= 0x1_0000_0000_0000_0000
        || os.base(request).None?
      ensures r.Returned? && r.payload != 0 ==> r.payload > 80 && r.payload % 8 == 0
      ensures r.Returned? && r.payload != 0 && descriptor.value.instanceAlignment == 0 ==> r.payload % 16 == 0
      ensures r.Returned? && r.payload != 0 && descriptor.value.instanceAlignment != 0 ==>
        IsPowerOfTwo(descriptor.value.instanceAlignment) && r.payload % descriptor.value.instanceAlignment == 0
      ensures r.Returned? && r.payload != 0 ==>
        (Allocations() == [Allocation(r.payload - HEADER_BYTES, ObjectKind, 1, descriptor.value.instanceSize, descriptor)] + old(Allocations()))
      ensures MarkedSet(headers, active) == old(MarkedSet(headers, active)) && KeepsPayloads(old(words), words, old(Allocations()))
      ensures trackedHeapBytes == (old(trackedHeapBytes)
                + (if r.Returned? && r.payload != 0 then descriptor.value.instanceSize else 0)) % WORD_LIMIT
      ensures gcRequested <==> old(gcRequested) || (r.Returned? && r.payload != 0 && trackedHeapBytes >= old(heapLimitBytes))
      ensures old(Thrifty()) ==> Thrifty()
    {
      hide ActiveList, LiveIffActive, ClassesOK, PagesOK, NonFullOK, PlacesOK, SlotsPlaced, BlocksApart, BlocksOwned, SlabMapOK, SystemMapOK,
        IsPowerOfTwo, IsMultiple, KeepsPayloads, MarkedSet, SystemRequest, NoIdlePage, HasRoom;
      SameWordsKeepPayloads(words, Allocations());
      if descriptor.None? || descriptor.value.abiVersion != ABI_VERSION {
        return Aborted("__mvm_malloc_typed received an incompatible GC type descriptor");
      }
      var d := descriptor.value;
      if d.instanceSize == 0 {
        return Aborted("__mvm_malloc_typed requires alloc type metadata");
      }
      var payload := AllocateTrackedLocked(ObjectKind, d.instanceSize, 1, d.instanceAlignment, descriptor, os);
      if payload != 0 {
        RecordManagedAllocation(d.instanceSize);
      }
      r := Returned(payload);
    }

    /** __mvm_array_malloc_typed: a size that overflows yields a null payload. */
    method ArrayMallocTyped(elementCount: Word, descriptor: Option<Descriptor>, os: MallocOracle) returns (r: EntryResult)
      requires Valid() && OracleSound(os, blocks)
      modifies this
      ensures Valid()
      ensures r.Aborted? <==> descriptor.None? || descriptor.value.abiVersion != 1 || descriptor.value.instanceSize == 0
      ensures r.Aborted? || r.payload == 0 ==> Allocations() == old(Allocations())
      ensures r.Returned? && elementCount * descriptor.value.instanceSize >= WORD_LIMIT ==> r.payload == 0
      ensures r.Returned? && r.payload == 0 && elementCount * descriptor.value.instanceSize < WORD_LIMIT ==>
        var alignment := descriptor.value.instanceAlignment;
        var number := if alignment == 0 then 16 else if alignment < 8 then 8 else alignment;
        var request := 80 + (number - 1) + Max(elementCount * descriptor.value.instanceSize, 1);
        || (alignment != 0 && !IsPowerOfTwo(alignment))
        || request >= 0x1_0000_0000_0000_0000
        || os.base(request).None?
      ensures r.Returned? && r.payload != 0 ==> r.payload > 80 && r.payload % 8 == 0
      ensures r.Returned? && r.payload != 0 && descriptor.value.instanceAlignment == 0 ==> r.payload % 16 == 0
      ensures r.Returned? && r.payload != 0 && descriptor.value.instanceAlignment != 0 ==>
        IsPowerOfTwo(descriptor.value.instanceAlignment) && r.payload % descriptor.value.instanceAlignment == 0
      ensures r.Returned? && r.payload != 0 ==>
        (Allocations() == [Allocation(r.payload - HEADER_BYTES, ArrayKind, elementCount,
                                      Max(elementCount * descriptor.value.instanceSize, 1), descriptor)] + old(Allocations()))
      ensures MarkedSet(headers, active) == old(MarkedSet(headers, active)) && KeepsPayloads(old(words), words, old(Allocations()))
      ensures trackedHeapBytes == (old(trackedHeapBytes)
                + (if r.Returned? && r.payload != 0 then elementCount * descriptor.value.instanceSize else 0)) % WORD_LIMIT
      ensures gcRequested <==>
              old(gcRequested) || (r.Returned? && r.payload != 0 && elementCount > 0 && trackedHeapBytes >= old(heapLimitBytes))
      ensures old(Thrifty()) ==> Thrifty()
    {
      hide ActiveList, LiveIffActive, ClassesOK, PagesOK, NonFullOK, PlacesOK, SlotsPlaced, BlocksApart, BlocksOwned, SlabMapOK, SystemMapOK,
        IsPowerOfTwo, IsMultiple, KeepsPayloads, MarkedSet, CheckedMul, SystemRequest, NoIdlePage, HasRoom;
      SameWordsKeepPayloads(words, Allocations());
      if descriptor.None? || descriptor.value.abiVersion != ABI_VERSION {
        return Aborted("__mvm_array_malloc_typed received an incompatible GC type descriptor");
      }
      var d := descriptor.value;
      if d.instanceSize == 0 {
        return Aborted("__mvm_array_malloc_typed requires alloc type metadata");
      }
      var payloadSize := CheckedMul(d.instanceSize, elementCount);
      if payloadSize.None? {
        return Returned(0);
      }
      var payload := AllocateTrackedLocked(ArrayKind, payloadSize.value, elementCount, d.instanceAlignment, descriptor, os);
      if payload != 0 {
        RecordManagedAllocation(payloadSize.value);
      }
      r := Returned(payload);
    }

    ghost predicate IsArrayPayload(payload: nat)
      reads this
    {
      payload >= HEADER_BYTES && payload - HEADER_BYTES in active && payload - HEADER_BYTES in headers
      && headers[payload - HEADER_BYTES].kind == ArrayKind
    }

    /** __mvm_array_length: for the payload of an active array, its element count; otherwise an abort. */
    method ArrayLength(payload: nat) returns (r: EntryResult)
      requires Valid()
      ensures r.Returned? <==> IsArrayPayload(payload)
      ensures r.Returned? ==> r.payload == headers[payload - HEADER_BYTES].elementCount
    {
      hide ActiveList, ClassesOK, PagesOK, NonFullOK, SlotsPlaced, BlocksApart, BlocksOwned, SlabMapOK, SystemMapOK, SlotAddress;
      if payload == 0 {
        return Aborted("__mvm_array_length received a null managed pointer");
      }
      var a := payload - HEADER_BYTES;
      if a < 0 || a !in headers || headers[a].magic != ALLOCATION_MAGIC || !headers[a].live {
        LiveHeadersHaveMagic(headers, places, slabPages, slabClasses, blocks);
        return Aborted("__mvm_array_length received a pointer that is not managed by mvm");
      }
      if headers[a].kind != ArrayKind {
        return Aborted("__mvm_array_length requires an mvm-managed array allocation");
      }
      r := Returned(headers[a].elementCount);
    }

    /** No memory is kept for nothing: every raw block holds an active allocation. */
    lemma EveryBlockIsNeeded(b: nat)
      requires Valid() && Thrifty() && b in blocks
      ensures exists al :: al in Allocations() && InBlock(al.header, b, blocks)
    {
      hide ActiveList, ClassesOK, PagesOK, NonFullOK, PlacesOK, SlotsPlaced, BlocksApart, BlocksOwned, SlabMapOK, SystemMapOK, InBlock, NoIdlePage;
      BlockServesAllocation(headers, active, places, slabPages, slabClasses, slabClassByKey, free, blocks, b);
      var a :| a in active && InBlock(a, b, blocks);
      AllocationsMembers(headers, active);
      assert AllocationAt(headers, a) in Allocations();
    }

    /** Active allocations are well formed and pairwise disjoint. */
    lemma ViewOfValid()
      requires Valid()
      ensures AllocationsDisjoint(Allocations())
      ensures forall al :: al in Allocations() ==> AllocationOK(al)
    {
      hide ActiveList, LiveIffActive, ClassesOK, PagesOK, NonFullOK, PlacesOK, SlotsPlaced, BlocksApart, BlocksOwned, SlabMapOK, SystemMapOK,
        AllocationsDisjoint, AllocationOK;
      RegistryView(headers, active, activeHead, places, slabPages, slabClasses, slabClassByKey, free, blocks);
    }
  }
}
