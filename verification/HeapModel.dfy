/** The data of the managed heap: allocation headers living at integer addresses, slab
    classes, slab pages and raw malloc blocks. A null pointer is address 0; a slab page is
    named by the address of its first byte; a slab class by its index in class storage. */
module HeapModel {
  import opened Wrappers
  import opened MachineWords

  const HEADER_BYTES: nat := 80            // sizeof(AllocationHeader)
  const HEADER_ALIGNMENT: nat := 8         // alignof(AllocationHeader)
  const DEFAULT_ALIGNMENT: nat := 16       // alignof(std::max_align_t)
  const WORD_BYTES: nat := 8               // sizeof(std::uintptr_t)
  const ADDRESS_PAGE_BYTES: nat := 4096
  const SLAB_PAGE_BYTES: nat := 65536
  const SLAB_ADDRESS_PAGES: nat := 16
  const MAX_SLAB_PAYLOAD: nat := 512
  const MAX_SLAB_ALIGNMENT: nat := 64
  const ALLOCATION_MAGIC: nat := 0x4D56_4D41_5252_4159

  datatype AllocationKind = ObjectKind | ArrayKind

  datatype StorageKind = SystemStorage | SlabStorage

  datatype GCTypeDescriptor = GCTypeDescriptor(
    abiVersion: Word,
    instanceSize: Word,
    instanceAlignment: Word,
    referenceSlotCount: nat,
    referenceSlotOffsets: Option<seq<Word>>)
  {
    /** The offset table, when present, holds referenceSlotCount entries. */
    predicate WellFormed() {
      referenceSlotOffsets.Some? ==> |referenceSlotOffsets.value| == referenceSlotCount
    }
  }

  type Descriptor = d: GCTypeDescriptor | d.WellFormed()
    witness GCTypeDescriptor(1, 0, 0, 0, None)

  datatype AllocationHeader = AllocationHeader(
    magic: Word,
    kind: AllocationKind,
    storageKind: StorageKind,
    elementCount: Word,
    payloadSize: nat,
    typeDescriptor: Option<Descriptor>,
    storageOwner: nat,
    prev: nat,
    next: nat,
    marked: bool,
    live: bool)

  datatype SlabClass = SlabClass(
    payloadSize: nat,
    alignment: nat,
    headerOffset: nat,
    slotStride: nat,
    slotsPerPage: nat,
    nonFullPages: nat)

  datatype SlabPage = SlabPage(
    slabClass: nat,
    allocationBase: nat,
    nextUnusedSlot: nat,
    liveCount: nat,
    freeList: nat,
    prevNonFull: nat,
    nextNonFull: nat)

  /** What malloc may answer: a base address for each requested size, and whatever bytes
      the new block happens to contain, read as headers or as words. */
  datatype MallocOracle = MallocOracle(
    base: nat -> Option<nat>,
    staleHeader: nat -> AllocationHeader,
    staleWords: map<nat, Word>)

  // Ghost bookkeeping: where a header lives and which object owns a raw block.
  datatype Place = SystemPlace(base: nat) | SlotPlace(page: nat, index: nat)
  datatype BlockOwner = Unowned | SystemBlock(header: nat) | PageBlock(page: nat)
  datatype Block = Block(size: nat, owner: BlockOwner)

  type Headers = map<nat, AllocationHeader>
  type Pages = map<nat, SlabPage>
  type Classes = seq<SlabClass>
  type Places = map<nat, Place>
  type Blocks = map<nat, Block>

  predicate InBlock(x: nat, base: nat, blocks: Blocks)
    requires base in blocks
  {
    base <= x < base + blocks[base].size
  }

  /** The part of an allocation that clients can observe. */
  datatype Allocation = Allocation(
    header: nat,
    kind: AllocationKind,
    elementCount: Word,
    payloadSize: nat,
    typeDescriptor: Option<Descriptor>)
  {
    function Payload(): nat { header + HEADER_BYTES }

    predicate Contains(address: nat) {
      Payload() <= address < Payload() + payloadSize
    }
  }

  function AllocationAt(h: Headers, a: nat): (r: Allocation)
    requires a in h
    ensures r.header == a
  {
    Allocation(a, h[a].kind, h[a].elementCount, h[a].payloadSize, h[a].typeDescriptor)
  }

  predicate ShouldUseSlabAllocator(kind: AllocationKind, payloadSize: nat, alignment: nat) {
    kind == ObjectKind && payloadSize <= MAX_SLAB_PAYLOAD && alignment <= MAX_SLAB_ALIGNMENT
  }

  /** initializeHeader: the contents of a header that was just handed out. */
  function NewHeader(kind: AllocationKind, storageKind: StorageKind, payloadSize: nat, elementCount: Word,
                     typeDescriptor: Option<Descriptor>, storageOwner: nat): AllocationHeader
  {
    AllocationHeader(ALLOCATION_MAGIC, kind, storageKind, elementCount, Max(payloadSize, 1), typeDescriptor,
                     storageOwner, 0, 0, false, true)
  }

  function PayloadAddress(header: nat): nat { header + HEADER_BYTES }

  /** i * stride, written additively. */
  function SlotOffset(stride: nat, i: nat): nat {
    if i == 0 then 0 else SlotOffset(stride, i - 1) + stride
  }

  function SlotAddress(stride: nat, headerOffset: nat, page: nat, i: nat): nat {
    page + SlotOffset(stride, i) + headerOffset
  }

  lemma {:induction false} SlotOffsetIsProduct(stride: nat, i: nat)
    ensures SlotOffset(stride, i) == i * stride
  {
    if i != 0 {
      SlotOffsetIsProduct(stride, i - 1);
      MulAdd(stride, i - 1, 1);
    }
  }

  /** slabHeaderAt: the address of the header of slot i. */
  function SlabHeaderAt(c: SlabClass, page: nat, i: nat): (a: nat)
    ensures a == SlotAddress(c.slotStride, c.headerOffset, page, i)
  {
    SlotOffsetIsProduct(c.slotStride, i);
    page + i * c.slotStride + c.headerOffset
  }

  lemma {:induction false} SlotOffsetMonotone(stride: nat, i: nat, j: nat)
    requires i < j
    ensures SlotOffset(stride, i) + stride <= SlotOffset(stride, j)
  {
    if i + 1 < j {
      SlotOffsetMonotone(stride, i, j - 1);
    }
  }

  function At(s: seq<nat>, i: int): nat { if 0 <= i < |s| then s[i] else 0 }

  ghost predicate NoDuplicates(s: seq<nat>) {
    forall i, j :: 0 <= i < j < |s| ==> s[i] != s[j]
  }

  function Without(s: seq<nat>, k: nat): seq<nat>
    requires k < |s|
  {
    s[..k] + s[k + 1..]
  }

  lemma WithoutMembers(s: seq<nat>, k: nat)
    requires k < |s| && NoDuplicates(s)
    ensures NoDuplicates(Without(s, k))
    ensures forall x :: x in Without(s, k) <==> x in s && x != s[k]
  {
    var t := Without(s, k);
    assert forall i :: 0 <= i < |t| ==> t[i] == if i < k then s[i] else s[i + 1];
    forall x | x in s && x != s[k]
      ensures x in t
    {
      var i :| 0 <= i < |s| && s[i] == x;
      assert t[if i < k then i else i - 1] == x;
    }
  }

  /** The machine word stored at an address. Memory never written reads as 0 here, but
      malloc may leave any stale word in a new block. */
  function Load(words: map<nat, Word>, address: nat): Word {
    if address in words then words[address] else 0
  }
}
