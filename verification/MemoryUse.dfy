/** What the registry asks malloc for and what it gives back: a page with room is used before
    a new one is made, and no raw block outlives its last allocation. */
module MemoryUse {
  import opened MachineWords
  import opened HeapModel
  import opened HeapInvariant
  import opened HeapLemmas
  import opened Reclamation

  /** Every slab page holds a live slot. */
  ghost predicate NoIdlePage(pages: Pages) {
    forall p :: p in pages ==> pages[p].liveCount > 0
  }

  /** pages' has no page pages lacks, but for p, and agrees with it off p and the list links. */
  ghost predicate PagesButOne(pages: Pages, pages': Pages, p: nat) {
    forall q :: q in pages' && q != p ==> q in pages && PageCore(pages'[q]) == PageCore(pages[q])
  }

  /** Page p belongs to the class of this size and alignment and has a free slot. */
  predicate HasRoom(pages: Pages, classes: Classes, p: nat, payloadSize: nat, alignment: nat) {
    && p in pages && pages[p].slabClass < |classes| && HasFreeSlots(pages[p], classes)
    && classes[pages[p].slabClass].payloadSize == payloadSize && classes[pages[p].slabClass].alignment == alignment
  }

  lemma RelinkedButOne(pages: Pages, pages': Pages, pg: SlabPage, p: nat)
    requires SamePagesOffLinks(pages[p := pg], pages')
    ensures PagesButOne(pages, pages', p)
    ensures p in pages' && PageCore(pages'[p]) == PageCore(pg)
  {
    assert p in pages[p := pg];
    forall q | q in pages' && q != p
      ensures q in pages && PageCore(pages'[q]) == PageCore(pages[q])
    {
      assert q in pages[p := pg];
    }
  }

  lemma BusyButOne(pages: Pages, pages': Pages, p: nat)
    requires PagesButOne(pages, pages', p) && NoIdlePage(pages)
    requires p in pages' ==> pages'[p].liveCount > 0
    ensures NoIdlePage(pages')
  {
    forall q | q in pages' && q != p
      ensures pages'[q].liveCount > 0
    {
      assert PageCore(pages'[q]).liveCount == PageCore(pages[q]).liveCount;
    }
  }

  lemma ButOneTwice(pages: Pages, pages': Pages, pages'': Pages, p: nat)
    requires PagesButOne(pages, pages', p) && PagesButOne(pages', pages'', p)
    ensures PagesButOne(pages, pages'', p)
  {
  }

  lemma SamePages(pages: Pages)
    ensures SamePagesOffLinks(pages, pages)
  {
  }

  /** The head of a class's list is there whenever a page of the class has room. */
  lemma RoomIsListed(pages: Pages, classes: Classes, byKey: map<nat, nat>, nonFull: seq<seq<nat>>, p: nat, payloadSize: nat, alignment: nat, k: nat)
    requires NonFullOK(pages, classes, nonFull, 0) && ClassesOK(classes, byKey) && k < |classes|
    requires classes[k].payloadSize == payloadSize && classes[k].alignment == alignment
    requires HasRoom(pages, classes, p, payloadSize, alignment)
    ensures classes[k].nonFullPages != 0
  {
    var j := pages[p].slabClass;
    assert KeyedAt(classes, byKey, j) && KeyedAt(classes, byKey, k);
    PageWithRoomIsListed(pages, classes, nonFull, p);
    assert ClassList(pages, nonFull[k], k, classes[k].nonFullPages);
    assert PageLinkedAt(pages, nonFull[k], 0);
  }

  predicate ClassExists(classes: Classes, payloadSize: nat, alignment: nat) {
    exists k :: 0 <= k < |classes| && classes[k].payloadSize == payloadSize && classes[k].alignment == alignment
  }

  /** The key lookup finds the class of this size and alignment, or there is none. */
  lemma ClassByKey(classes: Classes, byKey: map<nat, nat>, payloadSize: nat, alignment: nat)
    requires ClassesOK(classes, byKey) && IsSlabAlignment(alignment) && payloadSize <= MAX_SLAB_PAYLOAD
    ensures var key := ClassKey(payloadSize, alignment);
      if key in byKey then byKey[key] < |classes|
                           && classes[byKey[key]].payloadSize == payloadSize && classes[byKey[key]].alignment == alignment
      else !ClassExists(classes, payloadSize, alignment)
  {
    hide ClassKey;
    var key := ClassKey(payloadSize, alignment);
    if key in byKey {
      var found := classes[byKey[key]];
      assert found in classes;
      ClassKeyIsInjective(found.payloadSize, found.alignment, payloadSize, alignment);
    } else {
      forall k | 0 <= k < |classes|
        ensures classes[k].payloadSize != payloadSize || classes[k].alignment != alignment
      {
        assert KeyedAt(classes, byKey, k);
      }
    }
  }

  lemma OneMoreClass(classes: Classes, byKey: map<nat, nat>, c: SlabClass)
    requires ClassesOK(classes, byKey) && GeometryOK(c) && ClassKey(c.payloadSize, c.alignment) !in byKey
    ensures ClassesOK(classes + [c], byKey[ClassKey(c.payloadSize, c.alignment) := |classes|])
  {
    hide ClassKey, GeometryOK;
    var classes', byKey' := classes + [c], byKey[ClassKey(c.payloadSize, c.alignment) := |classes|];
    forall k | 0 <= k < |classes'|
      ensures KeyedAt(classes', byKey', k)
    {
      if k < |classes| {
        assert KeyedAt(classes, byKey, k);
      }
    }
  }

  lemma RoomNeedsClass(pages: Pages, classes: Classes, payloadSize: nat, alignment: nat)
    ensures (exists p :: HasRoom(pages, classes, p, payloadSize, alignment)) ==> ClassExists(classes, payloadSize, alignment)
  {
  }

  lemma RoomStays(pages: Pages, classes: Classes, classes': Classes, byKey: map<nat, nat>, nonFull: seq<seq<nat>>, payloadSize: nat, alignment: nat, k: nat)
    requires NonFullOK(pages, classes', nonFull, 0) && ClassesOK(classes', byKey) && classes <= classes' && k < |classes'|
    requires classes'[k].payloadSize == payloadSize && classes'[k].alignment == alignment
    ensures (exists p :: HasRoom(pages, classes, p, payloadSize, alignment)) ==> classes'[k].nonFullPages != 0
  {
    if p :| HasRoom(pages, classes, p, payloadSize, alignment) {
      assert classes'[pages[p].slabClass] == classes[pages[p].slabClass];
      RoomIsListed(pages, classes', byKey, nonFull, p, payloadSize, alignment, k);
    }
  }

  /** Taking a slot of a page, old or just made, leaves no idle page. */
  lemma BusyAfterTaking(pages: Pages, pages': Pages, pages'': Pages, p: nat)
    requires pages' == pages || PagesButOne(pages, pages', p)
    requires PagesButOne(pages', pages'', p) && p in pages'' && pages''[p].liveCount > 0
    ensures NoIdlePage(pages) ==> NoIdlePage(pages'')
  {
    if NoIdlePage(pages) {
      if pages' != pages {
        ButOneTwice(pages, pages', pages'', p);
      }
      BusyButOne(pages, pages'', p);
    }
  }

  /** Every raw block contains the header of an active allocation. */
  lemma BlockServesAllocation(h: Headers, s: seq<nat>, places: Places, pages: Pages, classes: Classes, byKey: map<nat, nat>,
                              free: map<nat, seq<nat>>, blocks: Blocks, b: nat)
    requires LiveIffActive(h, s) && ClassesOK(classes, byKey) && BlocksOwned(blocks, places, pages)
    requires PagesOK(h, pages, classes, free, blocks) && PlacesOK(h, places, pages, classes, blocks)
    requires NoIdlePage(pages) && b in blocks
    ensures exists a :: a in s && InBlock(a, b, blocks)
  {
    hide SlotAddress, PageOK, GeometryOK, HeaderOK;
    match blocks[b].owner
    case SystemBlock(a) =>
      assert PlaceOK(a, h[a], places[a], pages, classes, blocks);
      assert a in s && InBlock(a, b, blocks);
    case PageBlock(p) =>
      var c := classes[pages[p].slabClass];
      assert c in classes;
      assert PageGeometryOK(p, pages[p], classes, blocks);
      LiveCountIsExact(h, c, p, pages[p], free[p]);
      var i :| i in LiveSlots(h, c, p);
      var a := SlotAddress(c.slotStride, c.headerOffset, p, i);
      assert SlotIsLive(h, c, p, i);
      SlotInPage(c, p, i);
      assert a in s && InBlock(a, b, blocks);
  }
}
