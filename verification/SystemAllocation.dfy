/** Lemmas for allocations that own a raw block of their own. */
module SystemAllocation {
  import opened Wrappers
  import opened MachineWords
  import opened HeapModel
  import opened HeapInvariant
  import opened HeapLemmas
  import opened PageTables

  /** No known header lies inside a block that malloc has only just returned. */
  lemma FreshBlockHoldsNoHeader(b: nat, n: nat, h: Headers, places: Places, pages: Pages, classes: Classes,
                                free: map<nat, seq<nat>>, blocks: Blocks, byKey: map<nat, nat>)
    requires FreshRange(b, n, blocks)
    requires PlacesOK(h, places, pages, classes, blocks) && PagesOK(h, pages, classes, free, blocks) && ClassesOK(classes, byKey)
    ensures forall x :: x in h ==> !(b <= x < b + n)
  {
    forall x | x in h
      ensures !(b <= x < b + n)
    {
      HeaderInsideBlock(x, h, places, pages, classes, free, blocks, byKey);
    }
  }

  lemma FreshBlockStaysApart(b: nat, n: nat, owner: BlockOwner, blocks: Blocks)
    requires BlocksApart(blocks) && FreshRange(b, n, blocks) && n > 0
    ensures b !in blocks
    ensures BlocksApart(blocks[b := Block(n, owner)])
  {
  }

  lemma AddHeaderKeepsPages(h: Headers, a: nat, hd: AllocationHeader, pages: Pages, classes: Classes, free: map<nat, seq<nat>>,
                            blocks: Blocks, base: nat, block: Block)
    requires PagesOK(h, pages, classes, free, blocks)
    requires a !in h && base !in blocks
    ensures PagesOK(h[a := hd], pages, classes, free, blocks[base := block])
  {
    hide SlotAddress;
    forall p | p in pages
      ensures PageGeometryOK(p, pages[p], classes, blocks[base := block])
      ensures PageOK(h[a := hd], classes[pages[p].slabClass], p, pages[p], free[p])
    {
      assert PageGeometryOK(p, pages[p], classes, blocks);
      hide PageGeometryOK;
      var c := classes[pages[p].slabClass];
      assert PageOK(h, c, p, pages[p], free[p]);
      PageFrame(h, h[a := hd], c, c, p, pages[p], pages[p], free[p]);
    }
  }

  lemma AddHeaderKeepsPlaces(h: Headers, a: nat, hd: AllocationHeader, places: Places, pages: Pages, classes: Classes,
                             blocks: Blocks, base: nat, block: Block)
    requires PlacesOK(h, places, pages, classes, blocks) && SlotsPlaced(places, pages, classes)
    requires BlocksOwned(blocks, places, pages)
    requires a !in h && base !in blocks && block.owner == SystemBlock(a)
    requires PlaceOK(a, hd, SystemPlace(base), pages, classes, blocks[base := block])
    ensures PlacesOK(h[a := hd], places[a := SystemPlace(base)], pages, classes, blocks[base := block])
    ensures SlotsPlaced(places[a := SystemPlace(base)], pages, classes)
    ensures BlocksOwned(blocks[base := block], places[a := SystemPlace(base)], pages)
  {
    hide SlotAddress;
    var places' := places[a := SystemPlace(base)];
    forall x | x in places'
      ensures PlaceOK(x, h[a := hd][x], places'[x], pages, classes, blocks[base := block])
    {
      if x != a {
        assert PlaceOK(x, h[x], places[x], pages, classes, blocks);
      }
    }
    hide PlaceOK;
    forall p | p in pages
      ensures pages[p].slabClass < |classes| && PageSlotsPlaced(places', classes[pages[p].slabClass], p)
    {
      assert PageSlotsPlaced(places, classes[pages[p].slabClass], p);
    }
  }

  lemma AddHeaderKeepsActive(h: Headers, a: nat, hd: AllocationHeader, s: seq<nat>, head: nat)
    requires ActiveList(h, s, head) && LiveIffActive(h, s)
    requires a !in h && hd.live
    ensures a !in s
    ensures ActiveList(h[a := hd], s, head)
    ensures LiveIffActive(h[a := hd], [a] + s)
  {
    hide NoDuplicates;
    var h' := h[a := hd];
    forall i | 0 <= i < |s|
      ensures LinkedAt(h', s, i)
    {
      assert LinkedAt(h, s, i);
    }
  }

  lemma RelinkKeepsLive(h: Headers, h': Headers, s: seq<nat>, t: seq<nat>)
    requires SameOffList(h, h', s)
    requires LiveIffActive(h, t)
    ensures LiveIffActive(h', t)
  {
    forall x | x in h
      ensures h'[x].live == h[x].live
    {
      assert Unlinked(h'[x]) == Unlinked(h[x]);
    }
  }

  // ----- Taking a system allocation away again -----

  /** A raw block holds no header besides that of its owner. */
  lemma OnlyOwnerInBlock(b: nat, a: nat, h: Headers, places: Places, pages: Pages, classes: Classes,
                         free: map<nat, seq<nat>>, blocks: Blocks, byKey: map<nat, nat>)
    requires PlacesOK(h, places, pages, classes, blocks) && PagesOK(h, pages, classes, free, blocks) && ClassesOK(classes, byKey)
    requires BlocksApart(blocks)
    requires b in blocks && blocks[b].owner == SystemBlock(a)
    ensures forall x :: x in h && b <= x < b + blocks[b].size ==> x == a
  {
    forall x | x in h && b <= x < b + blocks[b].size
      ensures x == a
    {
      HeaderInsideBlock(x, h, places, pages, classes, free, blocks, byKey);
      assert HomeBlock(places, pages, x) == b;
      assert PlaceOK(x, h[x], places[x], pages, classes, blocks);
      hide PageOK;
      assert forall p :: p in pages ==> PageGeometryOK(p, pages[p], classes, blocks);
    }
  }

  /** The size asked of malloc: header, worst-case padding and payload, or None on overflow. */
  function SystemRequest(payloadSize: Word, alignment: Word): Option<Word>
    requires alignment > 0
  {
    var headerAndPadding := CheckedAdd(HEADER_BYTES, alignment - 1);
    if headerAndPadding.None? then None else CheckedAdd(Max(payloadSize, 1), headerAndPadding.value)
  }

  /** The payload address is aligned and header plus payload stay inside the raw block. */
  lemma SystemLayout(payloadSize: Word, alignment: Word, base: nat)
    requires alignment > 0 && IsPowerOfTwo(alignment)
    requires SystemRequest(payloadSize, alignment).Some?
    requires 0 < base && base + SystemRequest(payloadSize, alignment).value <= WORD_LIMIT
    ensures base + HEADER_BYTES < WORD_LIMIT
    ensures var payload := AlignUp(base + HEADER_BYTES, alignment);
      IsMultiple(payload, alignment) && base + HEADER_BYTES <= payload
      && payload + Max(payloadSize, 1) <= base + SystemRequest(payloadSize, alignment).value
  {
    hide AlignUp, IsPowerOfTwo, IsMultiple;
    assert base + HEADER_BYTES + alignment - 1 < WORD_LIMIT;
    AlignUpIsLeastMultiple(base + HEADER_BYTES, alignment);
  }

  lemma NewSystemHeaderOK(a: nat, kind: AllocationKind, payloadSize: Word, elementCount: Word, typeDescriptor: Option<Descriptor>,
                          base: nat, size: nat, pages: Pages, classes: Classes, blocks: Blocks)
    requires 0 < base <= a && a + HEADER_BYTES + Max(payloadSize, 1) <= base + size
    requires DescriptorFits(kind, elementCount, payloadSize, typeDescriptor)
    ensures PlaceOK(a, NewHeader(kind, SystemStorage, payloadSize, elementCount, typeDescriptor, base),
                    SystemPlace(base), pages, classes, blocks[base := Block(size, SystemBlock(a))])
  {
  }

  lemma ClaimBlock(blocks: Blocks, b: nat, size: nat, owner: BlockOwner)
    requires BlocksApart(blocks[b := Block(size, Unowned)])
    ensures BlocksApart(blocks[b := Block(size, owner)])
    ensures blocks[b := Block(size, Unowned)][b := Block(size, owner)] == blocks[b := Block(size, owner)]
  {
    var before, after := blocks[b := Block(size, Unowned)], blocks[b := Block(size, owner)];
    assert forall x :: x in after ==> x in before && after[x].size == before[x].size;
  }

  lemma AddedByLink(h: Headers, h1: Headers, h': Headers, s: seq<nat>, a: nat, hd: AllocationHeader)
    requires a !in s && h1 == h[a := hd] && SameOffList(h1, h', [a] + s) && Unlinked(hd) == hd && !hd.marked
    ensures Added(h, s, h', [a] + s, Allocation(a, hd.kind, hd.elementCount, hd.payloadSize, hd.typeDescriptor))
    ensures a in h' && h'[a].storageKind == hd.storageKind
  {
    assert Unlinked(h'[a]) == Unlinked(h1[a]);
    forall x | x in s && x in h
      ensures x in h' && Unlinked(h'[x]) == Unlinked(h[x])
    {
      assert Unlinked(h'[x]) == Unlinked(h1[x]);
    }
  }

  /** Linking or unlinking active headers leaves every other structure as it was. */
  lemma RelinkedActive(h: Headers, h': Headers, s: seq<nat>, places: Places, pages: Pages, classes: Classes,
                       free: map<nat, seq<nat>>, blocks: Blocks, sysMap: map<nat, seq<nat>>)
    requires SameOffList(h, h', s) && LiveIffActive(h, s)
    requires PagesOK(h, pages, classes, free, blocks)
    requires PlacesOK(h, places, pages, classes, blocks)
    requires SystemMapOK(sysMap, h, places)
    ensures LiveIffActive(h', s)
    ensures PagesOK(h', pages, classes, free, blocks)
    ensures PlacesOK(h', places, pages, classes, blocks)
    ensures SystemMapOK(sysMap, h', places)
  {
    RelinkKeepsLive(h, h', s, s);
    RelinkKeepsPages(h, h', s, pages, classes, free, blocks);
    RelinkKeepsPlaces(h, h', s, places, pages, classes, blocks);
    RelinkKeepsSystemMap(h, h', s, sysMap, places);
  }

  lemma RegisterNewHeader(sysMap: map<nat, seq<nat>>, sysMap': map<nat, seq<nat>>, h: Headers, a: nat, hd: AllocationHeader,
                          places: Places, pages: Pages, classes: Classes, blocks: Blocks, base: nat)
    requires SystemMapOK(sysMap, h, places) && PlacesOK(h, places, pages, classes, blocks)
    requires a !in h && hd.payloadSize >= 1
    requires Registered(sysMap, sysMap', a, PayloadAddress(a) / ADDRESS_PAGE_BYTES,
               (PayloadAddress(a) + hd.payloadSize - 1) / ADDRESS_PAGE_BYTES + 1)
    ensures SystemMapOK(sysMap', h[a := hd], places[a := SystemPlace(base)])
  {
    hide SystemMapOK, Registered, PlaceOK;
    RegisterKeepsMap(sysMap, sysMap', h, h[a := hd], places, a, base);
  }

  /** A new system allocation joins the registry; only the list links and table remain. */
  lemma AddSystemHeader(h: Headers, a: nat, hd: AllocationHeader, s: seq<nat>, head: nat, places: Places, pages: Pages, classes: Classes,
                        byKey: map<nat, nat>, free: map<nat, seq<nat>>, blocks: Blocks, base: nat, size: nat)
    requires ActiveList(h, s, head) && LiveIffActive(h, s) && ClassesOK(classes, byKey)
    requires PagesOK(h, pages, classes, free, blocks) && PlacesOK(h, places, pages, classes, blocks)
    requires SlotsPlaced(places, pages, classes) && BlocksOwned(blocks, places, pages)
    requires BlocksApart(blocks[base := Block(size, Unowned)]) && FreshRange(base, size, blocks)
    requires size > 0 && base <= a < base + size && hd.live
    requires PlaceOK(a, hd, SystemPlace(base), pages, classes, blocks[base := Block(size, SystemBlock(a))])
    ensures a !in h && a !in s
    ensures ActiveList(h[a := hd], s, head) && LiveIffActive(h[a := hd], [a] + s)
    ensures var blocks' := blocks[base := Block(size, SystemBlock(a))];
      var places' := places[a := SystemPlace(base)];
      && BlocksApart(blocks')
      && PagesOK(h[a := hd], pages, classes, free, blocks')
      && PlacesOK(h[a := hd], places', pages, classes, blocks')
      && SlotsPlaced(places', pages, classes)
      && BlocksOwned(blocks', places', pages)
  {
    var block := Block(size, SystemBlock(a));
    assert base !in blocks;
    hide ActiveList, LiveIffActive, ClassesOK, PagesOK, PlacesOK, SlotsPlaced, BlocksApart, BlocksOwned, PlaceOK;
    FreshBlockHoldsNoHeader(base, size, h, places, pages, classes, free, blocks, byKey);
    ClaimBlock(blocks, base, size, SystemBlock(a));
    AddHeaderKeepsPages(h, a, hd, pages, classes, free, blocks, base, block);
    AddHeaderKeepsPlaces(h, a, hd, places, pages, classes, blocks, base, block);
    AddHeaderKeepsActive(h, a, hd, s, head);
  }

  lemma SmallPowers()
    ensures IsPowerOfTwo(8) && IsPowerOfTwo(16)
  {
    assert Pow2(3) == 8 && Pow2(4) == 16;
    PowerOfTwoTest(8);
    PowerOfTwoTest(16);
  }

  /** Being a multiple of a larger power of two is being a multiple of eight. */
  lemma PowersAreMultiplesOfEight(payload: nat, alignment: Word)
    requires IsPowerOfTwo(alignment) && alignment >= 8 && payload % alignment == 0
    ensures payload % 8 == 0
  {
    PowerOfTwoTest(alignment);
    var k: nat :| alignment == Pow2(k);
    hide IsPowerOfTwo;
    assert Pow2(0) == 1 && Pow2(1) == 2 && Pow2(2) == 4 && Pow2(3) == 8;
    if k < 3 { Pow2Monotone(k, 2); }
    Pow2Splits(k, 3);
    hide Pow2;
    MultipleOfProduct(payload, Pow2(k - 3), 8);
  }

  lemma MultipleOfProduct(n: nat, r: nat, d: nat)
    requires r > 0 && d > 0 && r * d > 0 && n % (r * d) == 0
    ensures n % d == 0
  {
    var q := n / (r * d);
    assert n == q * (r * d) == d * (q * r);
    MultipleOf(d, q * r);
  }

  lemma {:induction false} Pow2Splits(k: nat, j: nat)
    requires j <= k
    ensures Pow2(k) == Pow2(k - j) * Pow2(j)
    decreases j
  {
    if j > 0 {
      Pow2Splits(k, j - 1);
      assert Pow2(k - j + 1) == 2 * Pow2(k - j);
    }
  }

  lemma SmallPowerIs(alignment: Word)
    requires IsPowerOfTwo(alignment) && alignment < 8
    ensures alignment == 1 || alignment == 2 || alignment == 4
  {
    PowerOfTwoTest(alignment);
    var k: nat :| alignment == Pow2(k);
    hide IsPowerOfTwo;
    assert Pow2(0) == 1 && Pow2(1) == 2 && Pow2(2) == 4 && Pow2(3) == 8;
    if k >= 3 { Pow2Monotone(3, k); }
  }

  /** A power of two divides any larger one: raising the alignment keeps what was asked for. */
  lemma SmallAlignmentDivides(payload: nat, alignment: Word)
    requires IsPowerOfTwo(alignment) && alignment < 8 && payload % 8 == 0
    ensures payload % alignment == 0
  {
    hide *;
    SmallPowerIs(alignment);
    MultipleOfProduct(payload, 8 / alignment, alignment);
  }

  /** The payload is aligned as requested: to sixteen bytes when the request is zero, and in any case to
      the eight of a header. */
  predicate IsAlignedFor(payload: nat, alignment: Word) {
    && payload % 8 == 0
    && (alignment == 0 ==> payload % 16 == 0)
    && (alignment != 0 ==> payload % alignment == 0)
  }

  /** malloc refuses the header, the payload and the room to align it, or they exceed 64 bits. */
  ghost predicate IsRefused(payloadSize: Word, alignment: Word, os: MallocOracle) {
    var number := if alignment == 0 then 16 else if alignment < 8 then 8 else alignment;
    var request := 80 + (number - 1) + (if payloadSize == 0 then 1 else payloadSize);
    request >= 0x1_0000_0000_0000_0000 || os.base(request).None?
  }

  lemma RefusedBy(payloadSize: Word, alignment: Word, effective: Word, os: MallocOracle)
    requires effective == if alignment == 0 then 16 else if alignment < 8 then 8 else alignment
    ensures SystemRequest(payloadSize, effective).None? || os.base(SystemRequest(payloadSize, effective).value).None? <==>
      IsRefused(payloadSize, alignment, os)
  {
    SystemRequestIs(payloadSize, effective);
    hide SystemRequest;
  }

  /** What was asked for holds of a payload aligned to the raised number. */
  lemma RaisedAlignment(payload: nat, alignment: Word, effective: Word)
    requires effective == if alignment == 0 then 16 else if alignment < 8 then 8 else alignment
    requires alignment == 0 || IsPowerOfTwo(alignment)
    requires IsPowerOfTwo(effective) && IsMultiple(payload, effective)
    ensures IsAlignedFor(payload, alignment)
  {
    hide IsPowerOfTwo;
    PowersAreMultiplesOfEight(payload, effective);
    if 0 < alignment < 8 {
      SmallAlignmentDivides(payload, alignment);
    }
  }

  lemma SmallPowersAreSlabAlignments(alignment: Word)
    requires IsPowerOfTwo(alignment) && HEADER_ALIGNMENT <= alignment <= MAX_SLAB_ALIGNMENT
    ensures IsSlabAlignment(alignment)
  {
    PowerOfTwoTest(alignment);
    var k: nat :| alignment == Pow2(k);
    hide IsPowerOfTwo;
    assert Pow2(2) == 4 && Pow2(3) == 8 && Pow2(4) == 16 && Pow2(5) == 32 && Pow2(6) == 64 && Pow2(7) == 128;
    if k <= 2 {
      Pow2Monotone(k, 2);
    } else if k >= 7 {
      Pow2Monotone(7, k);
    }
  }

  /** What is asked of malloc for a payload: 80 bytes of header, the payload, and room to align it. */
  lemma SystemRequestIs(payloadSize: Word, alignment: Word)
    requires alignment > 0
    ensures var bytes := 80 + (alignment - 1) + (if payloadSize == 0 then 1 else payloadSize);
      SystemRequest(payloadSize, alignment) == if bytes < 0x1_0000_0000_0000_0000 then Some(bytes) else None
  {
  }

  lemma KeepsWordsTransitive(w0: map<nat, Word>, w1: map<nat, Word>, w2: map<nat, Word>, blocks: Blocks)
    requires KeepsWords(w0, w1, blocks) && KeepsWords(w1, w2, blocks)
    ensures KeepsWords(w0, w2, blocks)
  {
    hide Load;
    forall w, b | b in blocks && b <= w < b + blocks[b].size
      ensures Load(w2, w) == Load(w0, w)
    {
      assert Load(w1, w) == Load(w0, w);
    }
  }
}
