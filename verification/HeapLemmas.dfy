/** Lemmas behind the operations of the managed heap. */
module HeapLemmas {
  import opened Wrappers
  import opened MachineWords
  import opened HeapModel
  import opened HeapInvariant

  // ----- Slab classes -----

  lemma SlabAlignmentIsPowerOfTwo(alignment: nat)
    requires IsSlabAlignment(alignment)
    ensures IsPowerOfTwo(alignment)
  {
    assert Pow2(3) == 8 && Pow2(4) == 16 && Pow2(5) == 32 && Pow2(6) == 64;
    PowerOfTwoTest(alignment);
  }

  lemma ClassKeyValue(payloadSize: nat, alignment: nat)
    requires IsSlabAlignment(alignment) && payloadSize <= MAX_SLAB_PAYLOAD
    ensures ClassKey(payloadSize, alignment) == alignment * 0x1_0000_0000 + payloadSize
  {
    assert Pow2(10) == 1024;
    Pow2Monotone(10, 32);
    Pow2Of32();
    BitOrOfDisjointFields(alignment, payloadSize, 32);
  }

  /** Distinct slab classes have distinct keys. */
  lemma ClassKeyIsInjective(p: nat, a: nat, p': nat, a': nat)
    requires IsSlabAlignment(a) && p <= MAX_SLAB_PAYLOAD
    requires IsSlabAlignment(a') && p' <= MAX_SLAB_PAYLOAD
    requires ClassKey(p, a) == ClassKey(p', a')
    ensures p == p' && a == a'
  {
    ClassKeyValue(p, a);
    ClassKeyValue(p', a');
  }

  /** The slot layout of a new slab class, or None when no slot fits a page. */
  function NewSlabClass(payloadSize: nat, alignment: nat): Option<SlabClass>
    requires IsSlabAlignment(alignment) && payloadSize <= MAX_SLAB_PAYLOAD
  {
    SlabAlignmentIsPowerOfTwo(alignment);
    AlignUpIsLeastMultiple(HEADER_BYTES, alignment);
    var payloadOffset := AlignUp(HEADER_BYTES, alignment);
    var slotStride := AlignUp(payloadOffset + Max(payloadSize, 1), alignment);
    if slotStride == 0 || slotStride > SLAB_PAGE_BYTES then None
    else
      var slotsPerPage := SLAB_PAGE_BYTES / slotStride;
      if slotsPerPage == 0 then None
      else Some(SlabClass(payloadSize, alignment, payloadOffset - HEADER_BYTES, slotStride, slotsPerPage, 0))
  }

  /** A slab class is never refused, its slots are aligned, large enough, and fill the page. */
  lemma NewSlabClassGeometry(payloadSize: nat, alignment: nat)
    requires IsSlabAlignment(alignment) && payloadSize <= MAX_SLAB_PAYLOAD
    ensures NewSlabClass(payloadSize, alignment).Some?
    ensures var c := NewSlabClass(payloadSize, alignment).value;
      GeometryOK(c) && c.payloadSize == payloadSize && c.alignment == alignment && c.nonFullPages == 0
  {
    hide AlignUp, IsPowerOfTwo;
    SlabAlignmentIsPowerOfTwo(alignment);
    AlignUpIsLeastMultiple(HEADER_BYTES, alignment);
    var payloadOffset := AlignUp(HEADER_BYTES, alignment);
    AlignUpIsLeastMultiple(payloadOffset + Max(payloadSize, 1), alignment);
    var slotStride := AlignUp(payloadOffset + Max(payloadSize, 1), alignment);
    QuotientBounds(SLAB_PAGE_BYTES, slotStride);
    FullSlots(slotStride);
  }

  lemma FullSlots(stride: nat)
    requires 0 < stride <= 768
    ensures SLAB_PAGE_BYTES / stride > 0
    ensures SlotOffset(stride, SLAB_PAGE_BYTES / stride) <= SLAB_PAGE_BYTES
    ensures SLAB_PAGE_BYTES < SlotOffset(stride, SLAB_PAGE_BYTES / stride + 1)
  {
    var n := SLAB_PAGE_BYTES / stride;
    SlotOffsetIsProduct(stride, n);
    QuotientBounds(SLAB_PAGE_BYTES, stride);
  }

  lemma ClassesGrow(h: Headers, pages: Pages, classes: Classes, classes': Classes, free: map<nat, seq<nat>>, blocks: Blocks, places: Places)
    requires classes <= classes'
    requires PagesOK(h, pages, classes, free, blocks)
    requires PlacesOK(h, places, pages, classes, blocks)
    requires SlotsPlaced(places, pages, classes)
    ensures PagesOK(h, pages, classes', free, blocks)
    ensures PlacesOK(h, places, pages, classes', blocks)
    ensures SlotsPlaced(places, pages, classes')
  {
    forall p | p in pages
      ensures pages[p].slabClass < |classes| && classes'[pages[p].slabClass] == classes[pages[p].slabClass]
    {
      assert PageGeometryOK(p, pages[p], classes, blocks);
    }
  }

  lemma NonFullGrows(pages: Pages, classes: Classes, classes': Classes, nonFull: seq<seq<nat>>, c: SlabClass)
    requires NonFullOK(pages, classes, nonFull, 0)
    requires classes' == classes + [c] && c.nonFullPages == 0
    ensures NonFullOK(pages, classes', nonFull + [[]], 0)
  {
    forall p | p in pages
      ensures PageListed(pages, classes', nonFull + [[]], p, 0)
    {
      assert PageListed(pages, classes, nonFull, p, 0);
    }
  }

  // ----- Frames: which changes leave a structure alone -----

  function Unlinked(h: AllocationHeader): AllocationHeader { h.(prev := 0, next := 0) }

  /** h' differs from h at most in the prev and next fields of headers in s. */
  ghost predicate SameOffList(h: Headers, h': Headers, s: seq<nat>) {
    && h.Keys == h'.Keys
    && (forall x :: x in h ==> Unlinked(h'[x]) == Unlinked(h[x]))
    && (forall x :: x in h && x !in s ==> h'[x] == h[x])
  }

  function PageCore(pg: SlabPage): SlabPage { pg.(prevNonFull := 0, nextNonFull := 0) }

  ghost predicate SamePagesOffLinks(pages: Pages, pages': Pages) {
    && pages.Keys == pages'.Keys
    && (forall p :: p in pages ==> PageCore(pages'[p]) == PageCore(pages[p]))
  }

  ghost predicate SameGeometry(classes: Classes, classes': Classes) {
    && |classes| == |classes'|
    && (forall k :: 0 <= k < |classes| ==> classes'[k].(nonFullPages := 0) == classes[k].(nonFullPages := 0))
  }

  lemma {:induction false} FreeChainFrame(h: Headers, h': Headers, c: SlabClass, c': SlabClass, p: nat, f: seq<nat>, head: nat)
    requires FreeChain(h, c, p, f, head)
    requires c'.slotStride == c.slotStride && c'.headerOffset == c.headerOffset
    requires forall i :: i in f ==>
      var a := SlotAddress(c.slotStride, c.headerOffset, p, i);
      a in h && a in h' && h'[a].next == h[a].next
    ensures FreeChain(h', c', p, f, head)
  {
    hide SlotAddress;
    if f != [] {
      assert f[0] in f;
      forall i | i in f[1..]
        ensures i in f
      {
      }
      FreeChainFrame(h, h', c, c', p, f[1..], h[head].next);
    }
  }

  lemma PageFrame(h: Headers, h': Headers, c: SlabClass, c': SlabClass, p: nat, pg: SlabPage, pg': SlabPage, f: seq<nat>)
    requires PageOK(h, c, p, pg, f)
    requires c'.(nonFullPages := 0) == c.(nonFullPages := 0)
    requires PageCore(pg') == PageCore(pg)
    requires forall i {:trigger SlotAddress(c.slotStride, c.headerOffset, p, i)} :: 0 <= i < c.slotsPerPage ==>
      var a := SlotAddress(c.slotStride, c.headerOffset, p, i);
      a in h && a in h' && h'[a].live == h[a].live && (h[a].live || h'[a].next == h[a].next)
    ensures PageOK(h', c', p, pg', f)
  {
    hide SlotAddress;
    FreeChainFrame(h, h', c, c', p, f, pg.freeList);
  }

  /** Relinking active headers disturbs none of the other header structures. */
  lemma RelinkKeepsPages(h: Headers, h': Headers, s: seq<nat>, pages: Pages, classes: Classes, free: map<nat, seq<nat>>, blocks: Blocks)
    requires SameOffList(h, h', s) && (forall x :: x in s ==> x in h && h[x].live)
    requires PagesOK(h, pages, classes, free, blocks)
    ensures PagesOK(h', pages, classes, free, blocks)
  {
    forall p | p in pages
      ensures PageOK(h', classes[pages[p].slabClass], p, pages[p], free[p])
    {
      assert PageGeometryOK(p, pages[p], classes, blocks);
      hide SlotAddress, PageGeometryOK;
      assert PageOK(h, classes[pages[p].slabClass], p, pages[p], free[p]);
      forall x | x in h
        ensures h'[x].live == h[x].live && (h[x].live || h'[x].next == h[x].next)
      {
        assert Unlinked(h'[x]) == Unlinked(h[x]);
      }
      PageFrame(h, h', classes[pages[p].slabClass], classes[pages[p].slabClass], p, pages[p], pages[p], free[p]);
    }
  }

  lemma RelinkKeepsPlaces(h: Headers, h': Headers, s: seq<nat>, places: Places, pages: Pages, classes: Classes, blocks: Blocks)
    requires SameOffList(h, h', s)
    requires PlacesOK(h, places, pages, classes, blocks)
    ensures PlacesOK(h', places, pages, classes, blocks)
  {
    hide SlotAddress;
    forall a | a in places
      ensures PlaceOK(a, h'[a], places[a], pages, classes, blocks)
    {
      assert PlaceOK(a, h[a], places[a], pages, classes, blocks);
      assert Unlinked(h'[a]) == Unlinked(h[a]);
    }
  }

  lemma RelinkKeepsSystemMap(h: Headers, h': Headers, s: seq<nat>, sysMap: map<nat, seq<nat>>, places: Places)
    requires SameOffList(h, h', s)
    requires SystemMapOK(sysMap, h, places)
    ensures SystemMapOK(sysMap, h', places)
  {
    hide Covers, NoDuplicates;
    forall a | a in h
      ensures h'[a].payloadSize == h[a].payloadSize
    {
      assert Unlinked(h'[a]) == Unlinked(h[a]);
    }
    forall key | key in sysMap
      ensures BucketOK(sysMap[key], key, h', places)
    {
      assert BucketOK(sysMap[key], key, h, places);
    }
  }

  // ----- The active list -----

  ghost function IndexOf(s: seq<nat>, a: nat): (k: nat)
    requires a in s
    ensures k < |s| && s[k] == a
  {
    if s[0] == a then 0 else 1 + IndexOf(s[1..], a)
  }

  ghost function Remove(s: seq<nat>, a: nat): seq<nat>
    requires a in s
  {
    Without(s, IndexOf(s, a))
  }

  lemma LinkKeepsActiveList(h: Headers, s: seq<nat>, head: nat, a: nat, h': Headers)
    requires ActiveList(h, s, head)
    requires a != 0 && a in h && a !in s
    requires var h1 := h[a := h[a].(prev := 0, next := head)];
      h' == if head != 0 && head in h then h1[head := h1[head].(prev := a)] else h1
    ensures ActiveList(h', [a] + s, a)
    ensures SameOffList(h, h', [a] + s)
  {
    var t := [a] + s;
    assert s != [] ==> LinkedAt(h, s, 0);
    assert forall i :: 0 <= i < |s| ==> t[i + 1] == s[i];
    forall i | 0 <= i < |t|
      ensures LinkedAt(h', t, i)
    {
      if i > 0 {
        assert LinkedAt(h, s, i - 1);
        if i > 1 {
          assert s[i - 1] != s[0];
        }
      }
    }
  }

  lemma Distinct(s: seq<nat>, i: nat, j: nat)
    requires NoDuplicates(s) && i < |s| && j < |s| && i != j
    ensures s[i] != s[j]
  {
  }

  function SplicedHeaders(h: Headers, a: nat): Headers
    requires a in h
  {
    var prev := h[a].prev;
    var next := h[a].next;
    var h1 := if prev != 0 && prev in h then h[prev := h[prev].(next := next)] else h;
    var h2 := if next != 0 && next in h then h1[next := h1[next].(prev := prev)] else h1;
    h2[a := h2[a].(prev := 0, next := 0)]
  }

  lemma SplicedElement(h: Headers, s: seq<nat>, k: nat, i: nat)
    requires (forall j {:trigger LinkedAt(h, s, j)} :: 0 <= j < |s| ==> LinkedAt(h, s, j))
    requires NoDuplicates(s) && k < |s| && s[k] in h && i < |s| - 1
    ensures LinkedAt(SplicedHeaders(h, s[k]), Without(s, k), i)
  {
    var j := if i < k then i else i + 1;
    assert LinkedAt(h, s, k);
    assert LinkedAt(h, s, j);
    assert k > 0 ==> LinkedAt(h, s, k - 1);
    assert k + 1 < |s| ==> LinkedAt(h, s, k + 1);
    Distinct(s, j, k);
    if k > 0 && j != k - 1 { Distinct(s, j, k - 1); }
    if k + 1 < |s| && j != k + 1 { Distinct(s, j, k + 1); }
  }

  lemma SplicedFrame(h: Headers, s: seq<nat>, k: nat)
    requires (forall j {:trigger LinkedAt(h, s, j)} :: 0 <= j < |s| ==> LinkedAt(h, s, j))
    requires k < |s| && s[k] in h
    ensures SameOffList(h, SplicedHeaders(h, s[k]), s)
  {
    assert LinkedAt(h, s, k);
    assert k > 0 ==> LinkedAt(h, s, k - 1);
    assert k + 1 < |s| ==> LinkedAt(h, s, k + 1);
  }

  /** Splicing out the header a, as unlinkActiveAllocation does. */
  lemma UnlinkKeepsActiveList(h: Headers, s: seq<nat>, head: nat, a: nat, head': nat)
    requires ActiveList(h, s, head)
    requires a in s && a in h
    requires head' == if h[a].prev == 0 && head == a then h[a].next else head
    ensures ActiveList(SplicedHeaders(h, a), Remove(s, a), head')
    ensures SameOffList(h, SplicedHeaders(h, a), s)
    ensures forall x :: x in Remove(s, a) <==> x in s && x != a
  {
    var k := IndexOf(s, a);
    WithoutMembers(s, k);
    SplicedFrame(h, s, k);
    assert LinkedAt(h, s, k);
    assert LinkedAt(h, s, 0);
    forall i | 0 <= i < |s| - 1
      ensures LinkedAt(SplicedHeaders(h, a), Without(s, k), i)
    {
      SplicedElement(h, s, k, i);
    }
    FirstIsDistinct(s, k);
  }

  lemma FirstIsDistinct(s: seq<nat>, k: nat)
    requires NoDuplicates(s) && k < |s|
    ensures k > 0 ==> s[k] != s[0]
  {
  }

  // ----- The lists of pages with free slots -----

  lemma PageLinked(pages: Pages, s: seq<nat>, head: nat, p: nat)
    requires PageList(pages, s, head)
    requires p != 0 && p in pages
    requires p !in s ==> pages[p].prevNonFull == 0 && pages[p].nextNonFull == 0
    ensures p in s <==> pages[p].prevNonFull != 0 || pages[p].nextNonFull != 0 || head == p
  {
    if p in s {
      var i :| 0 <= i < |s| && s[i] == p;
      assert PageLinkedAt(pages, s, i);
      if i > 0 { assert PageLinkedAt(pages, s, i - 1); }
    }
  }

  lemma LinkKeepsPageList(pages: Pages, s: seq<nat>, head: nat, p: nat, pages': Pages)
    requires PageList(pages, s, head)
    requires p != 0 && p in pages && p !in s
    requires var q1 := pages[p := pages[p].(prevNonFull := 0, nextNonFull := head)];
      pages' == if head != 0 && head in pages then q1[head := q1[head].(prevNonFull := p)] else q1
    ensures PageList(pages', [p] + s, p)
    ensures SamePagesOffLinks(pages, pages')
    ensures forall q :: q in pages && q !in [p] + s ==> pages'[q] == pages[q]
  {
    var t := [p] + s;
    assert s != [] ==> PageLinkedAt(pages, s, 0);
    assert forall i :: 0 <= i < |s| ==> t[i + 1] == s[i];
    forall i | 0 <= i < |t|
      ensures PageLinkedAt(pages', t, i)
    {
      if i > 0 {
        assert PageLinkedAt(pages, s, i - 1);
        if i > 1 {
          assert s[i - 1] != s[0];
        }
      }
    }
  }

  function SplicedPages(pages: Pages, p: nat): Pages
    requires p in pages
  {
    var prev := pages[p].prevNonFull;
    var next := pages[p].nextNonFull;
    var q1 := if prev != 0 && prev in pages then pages[prev := pages[prev].(nextNonFull := next)] else pages;
    var q2 := if next != 0 && next in pages then q1[next := q1[next].(prevNonFull := prev)] else q1;
    q2[p := q2[p].(prevNonFull := 0, nextNonFull := 0)]
  }

  lemma SplicedPage(pages: Pages, s: seq<nat>, k: nat, i: nat)
    requires (forall j {:trigger PageLinkedAt(pages, s, j)} :: 0 <= j < |s| ==> PageLinkedAt(pages, s, j))
    requires NoDuplicates(s) && k < |s| && s[k] in pages && i < |s| - 1
    ensures PageLinkedAt(SplicedPages(pages, s[k]), Without(s, k), i)
  {
    var j := if i < k then i else i + 1;
    assert PageLinkedAt(pages, s, k);
    assert PageLinkedAt(pages, s, j);
    assert k > 0 ==> PageLinkedAt(pages, s, k - 1);
    assert k + 1 < |s| ==> PageLinkedAt(pages, s, k + 1);
    Distinct(s, j, k);
    if k > 0 && j != k - 1 { Distinct(s, j, k - 1); }
    if k + 1 < |s| && j != k + 1 { Distinct(s, j, k + 1); }
  }

  lemma UnlinkKeepsPageList(pages: Pages, s: seq<nat>, head: nat, p: nat, head': nat)
    requires PageList(pages, s, head)
    requires p in s && p in pages
    requires head' == if pages[p].prevNonFull == 0 && head == p then pages[p].nextNonFull else head
    ensures PageList(SplicedPages(pages, p), Remove(s, p), head')
    ensures SamePagesOffLinks(pages, SplicedPages(pages, p))
    ensures forall q :: q in pages && q !in s ==> SplicedPages(pages, p)[q] == pages[q]
    ensures forall q :: q in Remove(s, p) <==> q in s && q != p
  {
    var k := IndexOf(s, p);
    WithoutMembers(s, k);
    assert PageLinkedAt(pages, s, k);
    assert PageLinkedAt(pages, s, 0);
    assert k > 0 ==> PageLinkedAt(pages, s, k - 1);
    assert k + 1 < |s| ==> PageLinkedAt(pages, s, k + 1);
    forall i | 0 <= i < |s| - 1
      ensures PageLinkedAt(SplicedPages(pages, p), Without(s, k), i)
    {
      SplicedPage(pages, s, k, i);
    }
    FirstIsDistinct(s, k);
  }

  /** A page list is untouched by changes to pages outside it. */
  lemma PageListFrame(pages: Pages, pages': Pages, s: seq<nat>, head: nat)
    requires PageList(pages, s, head)
    requires forall q :: q in s && q in pages ==> q in pages'
    requires forall q :: q in s && q in pages ==>
      pages'[q].prevNonFull == pages[q].prevNonFull && pages'[q].nextNonFull == pages[q].nextNonFull
    ensures PageList(pages', s, head)
  {
    hide NoDuplicates;
    forall i | 0 <= i < |s|
      ensures PageLinkedAt(pages', s, i)
    {
      assert PageLinkedAt(pages, s, i);
      assert s[i] in s;
    }
  }

  /** Replacing the list of one class, when only its own pages were relinked. */
  lemma NonFullAfterRelink(pages: Pages, pages': Pages, classes: Classes, k: nat, nonFull: seq<seq<nat>>, s: seq<nat>, head: nat, p: nat)
    requires NonFullOK(pages, classes, nonFull, p)
    requires k < |classes| && p in pages && pages[p].slabClass == k
    requires PageList(pages', s, head)
    requires SamePagesOffLinks(pages, pages')
    requires forall q :: q in pages && q !in s && q !in nonFull[k] ==> pages'[q] == pages[q]
    requires forall q :: q != p ==> (q in s <==> q in nonFull[k])
    requires p !in s ==> pages'[p].prevNonFull == 0 && pages'[p].nextNonFull == 0
    ensures NonFullOK(pages', classes[k := classes[k].(nonFullPages := head)], nonFull[k := s], p)
    ensures SameGeometry(classes, classes[k := classes[k].(nonFullPages := head)])
  {
    var classes' := classes[k := classes[k].(nonFullPages := head)];
    hide PageList, NoDuplicates;
    forall q | q in pages
      ensures PageListed(pages', classes', nonFull[k := s], q, p)
    {
      assert PageListed(pages, classes, nonFull, q, p);
      assert PageCore(pages'[q]) == PageCore(pages[q]);
    }
    hide PageListed;
    assert forall q :: q in pages ==> PageCore(pages'[q]) == PageCore(pages[q]);
    forall j | 0 <= j < |classes| && j != k
      ensures ClassList(pages', nonFull[j], j, classes[j].nonFullPages)
    {
      assert ClassList(pages, nonFull[j], j, classes[j].nonFullPages);
      PageListFrame(pages, pages', nonFull[j], classes[j].nonFullPages);
    }
  }

  lemma ListedExactly(pages: Pages, classes: Classes, nonFull: seq<seq<nat>>, p: nat)
    requires NonFullOK(pages, classes, nonFull, p)
    requires p in pages && pages[p].slabClass < |classes|
    requires Listed(pages, nonFull, p) <==> HasFreeSlots(pages[p], classes)
    ensures NonFullOK(pages, classes, nonFull, 0)
  {
    hide ClassList;
    forall q | q in pages
      ensures PageListed(pages, classes, nonFull, q, 0)
    {
      assert PageListed(pages, classes, nonFull, q, p);
    }
  }

  // ----- Relinking pages -----

  lemma PageRelinkKeepsPages(h: Headers, pages: Pages, pages': Pages, classes: Classes, classes': Classes, free: map<nat, seq<nat>>, blocks: Blocks)
    requires SamePagesOffLinks(pages, pages') && SameGeometry(classes, classes')
    requires PagesOK(h, pages, classes, free, blocks)
    ensures PagesOK(h, pages', classes', free, blocks)
  {
    hide SlotAddress;
    forall p | p in pages
      ensures PageGeometryOK(p, pages'[p], classes', blocks)
      ensures PageOK(h, classes'[pages'[p].slabClass], p, pages'[p], free[p])
    {
      assert PageCore(pages'[p]) == PageCore(pages[p]);
      assert PageGeometryOK(p, pages[p], classes, blocks);
      hide PageGeometryOK;
      var c := classes[pages[p].slabClass];
      var c' := classes'[pages[p].slabClass];
      assert PageOK(h, c, p, pages[p], free[p]);
      PageFrame(h, h, c, c', p, pages[p], pages'[p], free[p]);
    }
  }

  lemma PageRelinkKeepsPlaces(h: Headers, places: Places, pages: Pages, pages': Pages, classes: Classes, classes': Classes, blocks: Blocks)
    requires SamePagesOffLinks(pages, pages') && SameGeometry(classes, classes')
    requires PlacesOK(h, places, pages, classes, blocks)
    requires SlotsPlaced(places, pages, classes)
    ensures PlacesOK(h, places, pages', classes', blocks)
    ensures SlotsPlaced(places, pages', classes')
  {
    hide SlotAddress;
    forall p | p in pages
      ensures pages'[p].slabClass == pages[p].slabClass && pages'[p].nextUnusedSlot == pages[p].nextUnusedSlot
    {
      assert PageCore(pages'[p]) == PageCore(pages[p]);
    }
    forall p | p in pages
      ensures pages[p].slabClass < |classes| && PageSlotsPlaced(places, classes'[pages[p].slabClass], p)
    {
      assert PageSlotsPlaced(places, classes[pages[p].slabClass], p);
    }
    hide PageSlotsPlaced;
    forall a | a in places
      ensures PlaceOK(a, h[a], places[a], pages', classes', blocks)
    {
      assert PlaceOK(a, h[a], places[a], pages, classes, blocks);
    }
  }

  lemma PageRelinkKeepsOwners(pages: Pages, pages': Pages, classes: Classes, classes': Classes, byKey: map<nat, nat>, blocks: Blocks, places: Places, slabMap: map<nat, nat>)
    requires SamePagesOffLinks(pages, pages') && SameGeometry(classes, classes')
    requires BlocksOwned(blocks, places, pages) && SlabMapOK(slabMap, pages) && ClassesOK(classes, byKey)
    ensures BlocksOwned(blocks, places, pages') && SlabMapOK(slabMap, pages') && ClassesOK(classes', byKey)
  {
    forall p | p in pages
      ensures pages'[p].allocationBase == pages[p].allocationBase
    {
      assert PageCore(pages'[p]) == PageCore(pages[p]);
    }
    hide BlocksOwned, OnSlabPage, ClassesOK;
    BlocksOwnedFrame(blocks, places, pages, pages');
    ClassesRelinked(classes, classes', byKey);
  }

  lemma ClassesRelinked(classes: Classes, classes': Classes, byKey: map<nat, nat>)
    requires SameGeometry(classes, classes') && ClassesOK(classes, byKey)
    ensures ClassesOK(classes', byKey)
  {
    hide GeometryOK, ClassKey;
    forall c | c in classes'
      ensures GeometryOK(c)
    {
      var k :| 0 <= k < |classes'| && classes'[k] == c;
      assert classes[k] in classes && classes'[k].(nonFullPages := 0) == classes[k].(nonFullPages := 0);
      SameClassGeometry(classes[k], c);
    }
    forall k | 0 <= k < |classes'|
      ensures classes'[k].payloadSize == classes[k].payloadSize && classes'[k].alignment == classes[k].alignment
      ensures KeyedAt(classes', byKey, k)
    {
      assert KeyedAt(classes, byKey, k) && classes'[k].(nonFullPages := 0) == classes[k].(nonFullPages := 0);
    }
  }

  lemma SameClassGeometry(c: SlabClass, c': SlabClass)
    requires GeometryOK(c) && c'.(nonFullPages := 0) == c.(nonFullPages := 0)
    ensures GeometryOK(c')
  {
  }

  lemma BlocksOwnedFrame(blocks: Blocks, places: Places, pages: Pages, pages': Pages)
    requires BlocksOwned(blocks, places, pages)
    requires pages.Keys == pages'.Keys
    requires forall p :: p in pages ==> pages'[p].allocationBase == pages[p].allocationBase
    ensures BlocksOwned(blocks, places, pages')
  {
  }

  /** Relinking pages with free slots leaves every other structure as it was. */
  lemma RelinkedPages(h: Headers, places: Places, pages: Pages, pages': Pages, classes: Classes, classes': Classes, byKey: map<nat, nat>,
                      free: map<nat, seq<nat>>, blocks: Blocks, slabMap: map<nat, nat>)
    requires SamePagesOffLinks(pages, pages') && SameGeometry(classes, classes')
    requires PagesOK(h, pages, classes, free, blocks) && PlacesOK(h, places, pages, classes, blocks) && SlotsPlaced(places, pages, classes)
    requires BlocksOwned(blocks, places, pages) && SlabMapOK(slabMap, pages) && ClassesOK(classes, byKey)
    ensures PagesOK(h, pages', classes', free, blocks) && PlacesOK(h, places, pages', classes', blocks) && SlotsPlaced(places, pages', classes')
    ensures BlocksOwned(blocks, places, pages') && SlabMapOK(slabMap, pages') && ClassesOK(classes', byKey)
  {
    hide *;
    PageRelinkKeepsPages(h, pages, pages', classes, classes', free, blocks);
    PageRelinkKeepsPlaces(h, places, pages, pages', classes, classes', blocks);
    PageRelinkKeepsOwners(pages, pages', classes, classes', byKey, blocks, places, slabMap);
  }

  lemma ClassGeometry(classes: Classes, byKey: map<nat, nat>, k: nat)
    requires ClassesOK(classes, byKey) && k < |classes|
    ensures GeometryOK(classes[k])
  {
    assert classes[k] in classes;
  }

  lemma CoreKept(pages: Pages, pages': Pages, p: nat)
    requires SamePagesOffLinks(pages, pages') && p in pages
    ensures p in pages' && PageCore(pages'[p]) == PageCore(pages[p])
  {
  }

  lemma HeadPageIsListed(pages: Pages, classes: Classes, nonFull: seq<seq<nat>>, k: nat)
    requires NonFullOK(pages, classes, nonFull, 0) && k < |classes| && classes[k].nonFullPages != 0
    ensures var p := classes[k].nonFullPages;
      p in pages && pages[p].slabClass == k && Listed(pages, nonFull, p)
  {
    assert ClassList(pages, nonFull[k], k, classes[k].nonFullPages);
    assert PageLinkedAt(pages, nonFull[k], 0);
  }

  lemma NewPageIsListed(pages: Pages, pages': Pages, classes: Classes, classes': Classes, nonFull: seq<seq<nat>>, p: nat)
    requires NonFullOK(pages', classes', nonFull, 0) && p in pages
    requires SamePagesOffLinks(pages, pages') && SameGeometry(classes, classes')
    requires pages[p].slabClass < |classes| && GeometryOK(classes[pages[p].slabClass]) && pages[p].nextUnusedSlot == 0
    ensures p in pages' && pages'[p].slabClass == pages[p].slabClass && Listed(pages', nonFull, p)
  {
    hide NonFullOK;
    assert PageCore(pages'[p]) == PageCore(pages[p]);
    PageWithRoomIsListed(pages', classes', nonFull, p);
  }

  lemma PageWithRoomIsListed(pages: Pages, classes: Classes, nonFull: seq<seq<nat>>, p: nat)
    requires NonFullOK(pages, classes, nonFull, 0) && p in pages
    requires pages[p].slabClass < |classes| && HasFreeSlots(pages[p], classes)
    ensures Listed(pages, nonFull, p)
  {
    assert PageListed(pages, classes, nonFull, p, 0);
  }

  // ----- Raw blocks -----

  /** malloc answers with a block of its own: non-null, inside the address space, clear of
      every block handed out before, and holding no header that reads as live. */
  ghost predicate OracleSound(os: MallocOracle, blocks: Blocks) {
    && (forall n: nat {:trigger os.base(n)} :: n > 0 && os.base(n).Some? ==> FreshRange(os.base(n).value, n, blocks))
    && (forall a: nat {:trigger os.staleHeader(a)} :: !os.staleHeader(a).live)
  }

  ghost predicate FreshRange(b: nat, n: nat, blocks: Blocks) {
    && 0 < b && b + n <= WORD_LIMIT
    && (forall b' :: b' in blocks ==> b + n <= b' || b' + blocks[b'].size <= b)
  }

  ghost function HomeBlock(places: Places, pages: Pages, a: nat): nat
    requires a in places
  {
    match places[a]
    case SystemPlace(b) => b
    case SlotPlace(p, _) => if p in pages then pages[p].allocationBase else 0
  }

  lemma SlotInPage(c: SlabClass, p: nat, i: nat)
    requires GeometryOK(c) && i < c.slotsPerPage
    ensures p <= SlotAddress(c.slotStride, c.headerOffset, p, i)
    ensures SlotAddress(c.slotStride, c.headerOffset, p, i) + HEADER_BYTES + Max(c.payloadSize, 1) <= p + SLAB_PAGE_BYTES
  {
    if i + 1 < c.slotsPerPage {
      SlotOffsetMonotone(c.slotStride, i + 1, c.slotsPerPage);
    }
    assert SlotOffset(c.slotStride, i + 1) == SlotOffset(c.slotStride, i) + c.slotStride;
  }

  lemma PlacesKeys(h: Headers, places: Places, pages: Pages, classes: Classes, blocks: Blocks)
    requires PlacesOK(h, places, pages, classes, blocks)
    ensures places.Keys == h.Keys
  {
  }

  /** Every header lies inside the raw block of its owner. */
  lemma HeaderInsideBlock(a: nat, h: Headers, places: Places, pages: Pages, classes: Classes, free: map<nat, seq<nat>>, blocks: Blocks, byKey: map<nat, nat>)
    requires a in places
    requires PlacesOK(h, places, pages, classes, blocks) && PagesOK(h, pages, classes, free, blocks) && ClassesOK(classes, byKey)
    ensures a in h && a != 0
    ensures var b := HomeBlock(places, pages, a);
      b in blocks && b <= a && a + HEADER_BYTES <= b + blocks[b].size
      && (h[a].live ==> a + HEADER_BYTES + h[a].payloadSize <= b + blocks[b].size)
  {
    hide SlotAddress, PageOK, GeometryOK;
    assert PlaceOK(a, h[a], places[a], pages, classes, blocks);
    match places[a]
    case SystemPlace(_) =>
    case SlotPlace(p, i) =>
      assert PageGeometryOK(p, pages[p], classes, blocks);
      assert classes[pages[p].slabClass] in classes;
      SlotInPage(classes[pages[p].slabClass], p, i);
  }

  // ----- What clients observe -----

  ghost function AllocationsOf(h: Headers, s: seq<nat>): (r: seq<Allocation>)
    requires forall a :: a in s ==> a in h
    ensures |r| == |s|
  {
    if s == [] then [] else [AllocationAt(h, s[0])] + AllocationsOf(h, s[1..])
  }

  /** h' agrees with h, up to list links, on every header of s. */
  ghost predicate KeepsHeaders(h: Headers, h': Headers, s: seq<nat>) {
    forall x :: x in s && x in h ==> x in h' && Unlinked(h'[x]) == Unlinked(h[x])
  }

  lemma {:induction false} AllocationsFrame(h: Headers, h': Headers, s: seq<nat>)
    requires forall a :: a in s ==> a in h && a in h'
    requires KeepsHeaders(h, h', s)
    ensures AllocationsOf(h', s) == AllocationsOf(h, s)
  {
    if s != [] {
      assert s[0] in s;
      assert Unlinked(h'[s[0]]) == Unlinked(h[s[0]]);
      assert forall x :: x in s[1..] ==> x in s;
      AllocationsFrame(h, h', s[1..]);
    }
  }

  /** Every word inside a raw block of `blocks` is unchanged. */
  ghost predicate KeepsWords(words: map<nat, Word>, words': map<nat, Word>, blocks: Blocks) {
    forall w, b :: b in blocks && b <= w < b + blocks[b].size ==> Load(words', w) == Load(words, w)
  }

  /** One allocation was put in front of the active list; the others are as before. */
  ghost predicate Added(h: Headers, s: seq<nat>, h': Headers, s': seq<nat>, added: Allocation) {
    && added.header !in s
    && s' == [added.header] + s
    && added.header in h' && AllocationAt(h', added.header) == added && !h'[added.header].marked
    && KeepsHeaders(h, h', s)
  }
}
