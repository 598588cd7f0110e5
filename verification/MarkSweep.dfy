/** Lemmas behind the collector: marks, the worklist, and the sweep of the active list. */
module MarkSweep {
  import opened Collections
  import opened Wrappers
  import opened MachineWords
  import opened HeapModel
  import opened HeapInvariant
  import opened HeapLemmas
  import opened HeapGraph
  import opened SystemAllocation
  import opened OwnerLookup
  import opened Reclamation

  // ----- From headers to what clients see -----

  lemma {:induction false} AllocationsMembers(h: Headers, s: seq<nat>)
    requires forall a :: a in s ==> a in h
    ensures forall a :: a in s ==> AllocationAt(h, a) in AllocationsOf(h, s)
    ensures forall al :: al in AllocationsOf(h, s) ==> al.header in s && al == AllocationAt(h, al.header)
  {
    if s != [] {
      assert s[0] in s;
      assert forall a :: a in s <==> a == s[0] || a in s[1..];
      AllocationsMembers(h, s[1..]);
      var rest := AllocationsOf(h, s[1..]);
      assert forall al :: al in AllocationsOf(h, s) <==> al == AllocationAt(h, s[0]) || al in rest;
    }
  }

  /** Headers that do not overlap: at most one contains an address, and it is the owner found by search. */
  lemma OwnerIsUnique(h: Headers, s: seq<nat>, a: nat, address: nat, places: Places, pages: Pages, classes: Classes, byKey: map<nat, nat>,
                      free: map<nat, seq<nat>>, blocks: Blocks, head: nat)
    requires ActiveList(h, s, head) && LiveIffActive(h, s) && BlocksApart(blocks)
    requires PlacesOK(h, places, pages, classes, blocks) && PagesOK(h, pages, classes, free, blocks) && ClassesOK(classes, byKey)
    requires a in s && a in h && PayloadContains(h[a], a, address)
    ensures OwnerIn(AllocationsOf(h, s), address) == a
  {
    var allocs := AllocationsOf(h, s);
    AllocationsMembers(h, s);
    ActiveIsNotNull(h, s, head);
    assert NoNullHeader(allocs);
    hide ActiveList, BlocksApart, PlacesOK, PagesOK, ClassesOK;
    OwnerInIsOwner(allocs, address);
    assert AllocationAt(h, a).Contains(address) && AllocationAt(h, a) in allocs;
    var al :| al in allocs && al.header == OwnerIn(allocs, address) && al.Contains(address);
    if al.header != a {
      AllocationsApart(al.header, a, h, s, places, pages, classes, byKey, free, blocks);
    }
  }

  lemma ActiveIsNotNull(h: Headers, s: seq<nat>, head: nat)
    requires ActiveList(h, s, head)
    ensures 0 !in s
  {
    forall i | 0 <= i < |s|
      ensures s[i] != 0
    {
      assert LinkedAt(h, s, i);
    }
  }

  /** The linear search finds the header whose 80 bytes are followed by the address, or there is none. */
  lemma OwnerIsInside(h: Headers, s: seq<nat>, address: nat)
    requires forall a :: a in s ==> a in h && a != 0
    ensures var a := OwnerIn(AllocationsOf(h, s), address);
      && (a != 0 ==> a in s && a + 80 <= address < a + 80 + h[a].payloadSize)
      && (a == 0 ==> forall x :: x in s ==> !(x + 80 <= address < x + 80 + h[x].payloadSize))
  {
    var allocs := AllocationsOf(h, s);
    AllocationsMembers(h, s);
    hide OwnerIn, AllocationsOf;
    OwnerInIsOwner(allocs, address);
    assert forall x :: x in s ==> !AllocationAt(h, x).Contains(address) || OwnerIn(allocs, address) != 0;
  }

  lemma NoOwner(h: Headers, s: seq<nat>, address: nat)
    requires forall a :: a in s ==> a in h && a != 0
    requires forall a :: a in s ==> !PayloadContains(h[a], a, address)
    ensures OwnerIn(AllocationsOf(h, s), address) == 0
  {
    var allocs := AllocationsOf(h, s);
    AllocationsMembers(h, s);
    assert NoNullHeader(allocs);
    OwnerInIsOwner(allocs, address);
    forall al | al in allocs
      ensures !al.Contains(address)
    {
      assert !PayloadContains(h[al.header], al.header, address);
    }
  }

  // ----- Marks -----

  function Unmarked(h: AllocationHeader): AllocationHeader { h.(marked := false) }

  /** h' differs from h at most in mark bits. */
  ghost predicate SameButMarks(h: Headers, h': Headers) {
    h.Keys == h'.Keys && forall x :: x in h ==> Unmarked(h'[x]) == Unmarked(h[x])
  }

  ghost function MarkedSet(h: Headers, s: seq<nat>): set<nat> {
    set a | a in s && a in h && h[a].marked
  }

  lemma MarksKeepRegistry(h: Headers, h': Headers, s: seq<nat>, head: nat, places: Places, pages: Pages, classes: Classes,
                          free: map<nat, seq<nat>>, blocks: Blocks, sysMap: map<nat, seq<nat>>)
    requires SameButMarks(h, h') && ActiveList(h, s, head) && LiveIffActive(h, s)
    requires PagesOK(h, pages, classes, free, blocks) && PlacesOK(h, places, pages, classes, blocks) && SystemMapOK(sysMap, h, places)
    ensures ActiveList(h', s, head) && LiveIffActive(h', s)
    ensures PagesOK(h', pages, classes, free, blocks) && PlacesOK(h', places, pages, classes, blocks) && SystemMapOK(sysMap, h', places)
  {
    MarkFacts(h, h');
    MarksKeepActive(h, h', s, head);
    MarksKeepPages(h, h', pages, classes, free, blocks);
    MarksKeepPlaces(h, h', places, pages, classes, blocks);
    MarksKeepSystemMap(h, h', sysMap, places);
    hide ActiveList, PagesOK, PlacesOK, SystemMapOK, SameButMarks;
  }

  lemma MarkFacts(h: Headers, h': Headers)
    requires SameButMarks(h, h')
    ensures forall x :: x in h ==> x in h' && h'[x].live == h[x].live && h'[x].next == h[x].next && h'[x].prev == h[x].prev
    ensures forall x :: x in h ==> h'[x].payloadSize == h[x].payloadSize
  {
    forall x | x in h
      ensures x in h' && h'[x].live == h[x].live && h'[x].next == h[x].next && h'[x].prev == h[x].prev && h'[x].payloadSize == h[x].payloadSize
    {
      assert Unmarked(h'[x]) == Unmarked(h[x]);
    }
  }

  lemma MarksKeepActive(h: Headers, h': Headers, s: seq<nat>, head: nat)
    requires ActiveList(h, s, head)
    requires forall x :: x in h ==> x in h' && h'[x].next == h[x].next && h'[x].prev == h[x].prev
    ensures ActiveList(h', s, head)
  {
    hide NoDuplicates;
    forall i | 0 <= i < |s|
      ensures LinkedAt(h', s, i)
    {
      assert LinkedAt(h, s, i);
    }
  }

  lemma MarksKeepPages(h: Headers, h': Headers, pages: Pages, classes: Classes, free: map<nat, seq<nat>>, blocks: Blocks)
    requires PagesOK(h, pages, classes, free, blocks)
    requires forall x :: x in h ==> x in h' && h'[x].live == h[x].live && h'[x].next == h[x].next
    ensures PagesOK(h', pages, classes, free, blocks)
  {
    hide SlotAddress;
    forall p | p in pages
      ensures PageOK(h', classes[pages[p].slabClass], p, pages[p], free[p])
    {
      assert PageGeometryOK(p, pages[p], classes, blocks);
      hide PageGeometryOK;
      var c := classes[pages[p].slabClass];
      assert PageOK(h, c, p, pages[p], free[p]);
      PageFrame(h, h', c, c, p, pages[p], pages[p], free[p]);
    }
  }

  lemma MarksKeepPlaces(h: Headers, h': Headers, places: Places, pages: Pages, classes: Classes, blocks: Blocks)
    requires SameButMarks(h, h') && PlacesOK(h, places, pages, classes, blocks)
    ensures PlacesOK(h', places, pages, classes, blocks)
  {
    hide SlotAddress;
    forall a | a in places
      ensures PlaceOK(a, h'[a], places[a], pages, classes, blocks)
    {
      assert PlaceOK(a, h[a], places[a], pages, classes, blocks);
      assert Unmarked(h'[a]) == Unmarked(h[a]);
    }
  }

  lemma MarksKeepSystemMap(h: Headers, h': Headers, sysMap: map<nat, seq<nat>>, places: Places)
    requires SameButMarks(h, h') && SystemMapOK(sysMap, h, places)
    requires forall x :: x in h ==> h'[x].payloadSize == h[x].payloadSize
    ensures SystemMapOK(sysMap, h', places)
  {
    hide Covers, NoDuplicates;
    forall key | key in sysMap
      ensures BucketOK(sysMap[key], key, h', places)
    {
      assert BucketOK(sysMap[key], key, h, places);
    }
  }

  lemma {:induction false} MarksKeepAllocations(h: Headers, h': Headers, s: seq<nat>)
    requires SameButMarks(h, h') && forall a :: a in s ==> a in h
    ensures AllocationsOf(h', s) == AllocationsOf(h, s)
  {
    if s != [] {
      assert s[0] in s;
      assert Unmarked(h'[s[0]]) == Unmarked(h[s[0]]);
      assert forall x :: x in s[1..] ==> x in s;
      MarksKeepAllocations(h, h', s[1..]);
    }
  }

  lemma SameButMarksTransitive(h0: Headers, h1: Headers, h2: Headers)
    requires SameButMarks(h0, h1) && SameButMarks(h1, h2)
    ensures SameButMarks(h0, h2)
  {
    forall x | x in h0
      ensures Unmarked(h2[x]) == Unmarked(h0[x])
    {
      assert Unmarked(h1[x]) == Unmarked(h0[x]);
    }
  }

  // ----- Marking the owners of a list of addresses -----

  /** From (h, work) the collector marked exactly the owners of the targets, pushing each newly marked payload once or more. */
  ghost predicate MarkedFrom(h: Headers, work: seq<nat>, h': Headers, work': seq<nat>, s: seq<nat>, owners: set<nat>) {
    && SameButMarks(h, h')
    && MarkedSet(h', s) == MarkedSet(h, s) + owners
    && work <= work'
    && (forall w :: w in work' ==> w in work || (w >= HEADER_BYTES && w - HEADER_BYTES in owners && w - HEADER_BYTES !in MarkedSet(h, s)))
    && (forall a :: a in owners && a !in MarkedSet(h, s) ==> PayloadAddress(a) in work')
    && (MarkedSet(h', s) == MarkedSet(h, s) ==> work' == work)
  }

  lemma NothingMarked(h: Headers, work: seq<nat>, s: seq<nat>)
    ensures MarkedFrom(h, work, h, work, s, {})
  {
  }

  lemma MarkedThenMarked(h0: Headers, w0: seq<nat>, h1: Headers, w1: seq<nat>, h2: Headers, w2: seq<nat>, s: seq<nat>, o1: set<nat>, o2: set<nat>)
    requires MarkedFrom(h0, w0, h1, w1, s, o1) && MarkedFrom(h1, w1, h2, w2, s, o2)
    ensures MarkedFrom(h0, w0, h2, w2, s, o1 + o2)
  {
    SameButMarksTransitive(h0, h1, h2);
    hide SameButMarks;
    assert MarkedSet(h2, s) == MarkedSet(h0, s) + (o1 + o2);
    hide MarkedSet;
    if MarkedSet(h2, s) == MarkedSet(h0, s) {
      assert MarkedSet(h1, s) == MarkedSet(h0, s);
    }
  }

  lemma MarkOne(h: Headers, work: seq<nat>, s: seq<nat>, a: nat)
    requires a in s && a in h && !h[a].marked
    ensures MarkedFrom(h, work, h[a := h[a].(marked := true)], work + [PayloadAddress(a)], s, {a})
  {
    var h' := h[a := h[a].(marked := true)];
    assert MarkedSet(h', s) == MarkedSet(h, s) + {a};
    assert a in MarkedSet(h', s) && a !in MarkedSet(h, s);
  }

  lemma MarkedAlready(h: Headers, work: seq<nat>, s: seq<nat>, a: nat)
    requires a in s && a in h && h[a].marked
    ensures MarkedFrom(h, work, h, work, s, {a})
  {
  }

  lemma OwnersOfOneMore(allocs: seq<Allocation>, addresses: seq<nat>, t: nat)
    ensures Owners(allocs, addresses + [t]) == Owners(allocs, addresses) + Owners(allocs, [t])
  {
  }

  lemma OwnersOfOne(allocs: seq<Allocation>, t: nat)
    ensures Owners(allocs, [t]) == if OwnerIn(allocs, t) == 0 then {} else {OwnerIn(allocs, t)}
  {
  }

  lemma NullHasNoOwner(allocs: seq<Allocation>)
    requires NoNullHeader(allocs)
    ensures OwnerIn(allocs, 0) == 0
  {
    OwnerInIsOwner(allocs, 0);
  }

  // ----- Sweeping -----

  ghost function FilterHeaders(s: seq<nat>, kept: set<nat>): (r: seq<nat>)
    ensures |r| <= |s|
    ensures forall a :: a in r <==> a in s && a in kept
  {
    if s == [] then []
    else FilterHeaders(s[..|s| - 1], kept) + (if s[|s| - 1] in kept then [s[|s| - 1]] else [])
  }

  lemma FilterOneMore(done: seq<nat>, a: nat, kept: set<nat>)
    ensures FilterHeaders(done + [a], kept) == FilterHeaders(done, kept) + (if a in kept then [a] else [])
  {
    assert (done + [a])[..|done|] == done;
  }

  lemma {:induction false} AllocationsConcat(h: Headers, s: seq<nat>, t: seq<nat>)
    requires forall a :: a in s + t ==> a in h
    ensures (forall a :: a in s ==> a in h) && (forall a :: a in t ==> a in h)
    ensures AllocationsOf(h, s + t) == AllocationsOf(h, s) + AllocationsOf(h, t)
  {
    assert forall a :: a in s ==> a in s + t;
    assert forall a :: a in t ==> a in s + t;
    if s == [] {
      assert s + t == t;
    } else {
      assert (s + t)[1..] == s[1..] + t;
      assert s[0] in s + t;
      AllocationsConcat(h, s[1..], t);
    }
  }

  lemma {:induction false} KeepConcat(a: seq<Allocation>, b: seq<Allocation>, kept: set<nat>)
    ensures Keep(a + b, kept) == Keep(a, kept) + Keep(b, kept)
  {
    if a == [] {
      assert a + b == b;
    } else {
      assert (a + b)[1..] == a[1..] + b;
      KeepConcat(a[1..], b, kept);
    }
  }

  lemma {:induction false} BytesConcat(a: seq<Allocation>, b: seq<Allocation>)
    ensures Bytes(a + b) == Bytes(a) + Bytes(b)
  {
    if a == [] {
      assert a + b == b;
    } else {
      assert (a + b)[1..] == a[1..] + b;
      BytesConcat(a[1..], b);
    }
  }

  /** The clients' view of the swept list is the old view restricted to the marked allocations. */
  lemma {:induction false} FilteredAllocations(h: Headers, s: seq<nat>, kept: set<nat>)
    requires forall a :: a in s ==> a in h
    ensures AllocationsOf(h, FilterHeaders(s, kept)) == Keep(AllocationsOf(h, s), kept)
  {
    if s != [] {
      var t, a := s[..|s| - 1], s[|s| - 1];
      assert s == t + [a];
      assert forall x :: x in t ==> x in s;
      FilteredAllocations(h, t, kept);
      AllocationsConcat(h, t, [a]);
      KeepConcat(AllocationsOf(h, t), AllocationsOf(h, [a]), kept);
      assert AllocationsOf(h, [a]) == [AllocationAt(h, a)];
      if a in kept {
        AllocationsConcat(h, FilterHeaders(t, kept), [a]);
      } else {
        assert FilterHeaders(s, kept) == FilterHeaders(t, kept);
        assert Keep(AllocationsOf(h, [a]), kept) == [];
      }
    }
  }

  /** h' keeps, up to links and marks, every header of s. */
  ghost predicate SameObjects(h: Headers, h': Headers, s: seq<nat>) {
    forall x :: x in s ==> x in h && x in h' && Unlinked(Unmarked(h'[x])) == Unlinked(Unmarked(h[x]))
  }

  lemma {:induction false} SameObjectsSameAllocations(h: Headers, h': Headers, s: seq<nat>)
    requires SameObjects(h, h', s)
    ensures AllocationsOf(h', s) == AllocationsOf(h, s)
  {
    if s != [] {
      assert s[0] in s;
      assert Unlinked(Unmarked(h'[s[0]])) == Unlinked(Unmarked(h[s[0]]));
      assert forall x :: x in s[1..] ==> x in s;
      SameObjectsSameAllocations(h, h', s[1..]);
    }
  }

  lemma {:induction false} RemoveMiddle(kept: seq<nat>, a: nat, rest: seq<nat>)
    requires a !in kept
    ensures a in kept + [a] + rest && Remove(kept + [a] + rest, a) == kept + rest
  {
    var s := kept + [a] + rest;
    assert s[|kept|] == a;
    var k := IndexOf(s, a);
    FirstIndex(s, a, |kept|);
    assert Without(s, |kept|) == kept + rest;
  }

  lemma {:induction false} FirstIndex(s: seq<nat>, a: nat, k: nat)
    requires k < |s| && s[k] == a && a !in s[..k]
    ensures IndexOf(s, a) == k
  {
    assert k > 0 ==> s[..k][0] == s[0];
    if s[0] != a {
      assert s[1..][..k - 1] == s[..k][1..];
      FirstIndex(s[1..], a, k - 1);
    }
  }

  /** How many objects and bytes the sweep has kept and dropped. */
  datatype GCCollectionStats = GCCollectionStats(
    collectionCount: nat,
    rootCount: nat,
    liveObjectCount: nat,
    sweptObjectCount: nat,
    sweptBytes: nat,
    heapBytesBefore: nat,
    heapBytesAfter: nat,
    heapObjectCountBefore: nat,
    heapObjectCountAfter: nat)

  // ----- The mark phase as a whole -----

  /** Every worklist entry is the payload of a marked allocation. */
  ghost predicate WorkIsMarked(h: Headers, s: seq<nat>, work: seq<nat>) {
    forall w :: w in work ==> w >= HEADER_BYTES && w - HEADER_BYTES in MarkedSet(h, s)
  }

  /** Marked allocations not waiting on the worklist have all their successors marked. */
  ghost predicate ScannedOrWaiting(h: Headers, s: seq<nat>, work: seq<nat>, allocs: seq<Allocation>, words: map<nat, Word>) {
    forall a, b :: a in MarkedSet(h, s) && PayloadAddress(a) !in work && Edge(allocs, words, a, b) ==> b in MarkedSet(h, s)
  }

  ghost predicate MarkedIsReachable(h: Headers, s: seq<nat>, allocs: seq<Allocation>, words: map<nat, Word>, roots: seq<nat>) {
    forall a :: a in MarkedSet(h, s) ==> Reachable(allocs, words, roots, a)
  }

  ghost function UnmarkedSet(h: Headers, s: seq<nat>): set<nat> {
    set a | a in s && a in h && !h[a].marked
  }

  /** After marking the root owners from scratch the mark-phase invariant holds. */
  lemma RootsMarked(h: Headers, h': Headers, s: seq<nat>, work: seq<nat>, allocs: seq<Allocation>, words: map<nat, Word>, roots: seq<nat>)
    requires MarkedSet(h, s) == {} && MarkedFrom(h, [], h', work, s, Owners(allocs, roots))
    ensures WorkIsMarked(h', s, work) && ScannedOrWaiting(h', s, work, allocs, words) && MarkedIsReachable(h', s, allocs, words, roots)
    ensures Owners(allocs, roots) <= MarkedSet(h', s)
  {
    hide MarkedSet, Owners, SameButMarks;
    forall a | a in MarkedSet(h', s)
      ensures Reachable(allocs, words, roots, a)
    {
      assert ReachableIn(allocs, words, roots, 0, a);
    }
  }

  /** Everything marked by a scan of al is reachable, if al is. */
  lemma ScannedIsReachable(h: Headers, h': Headers, s: seq<nat>, work: seq<nat>, work': seq<nat>, al: Allocation,
                           allocs: seq<Allocation>, words: map<nat, Word>, roots: seq<nat>, owners: set<nat>)
    requires MarkedIsReachable(h, s, allocs, words, roots) && al.header in MarkedSet(h, s)
    requires MarkedFrom(h, work, h', work', s, owners) && forall b :: b in owners ==> Edge(allocs, words, al.header, b)
    ensures MarkedIsReachable(h', s, allocs, words, roots)
  {
    hide SameButMarks, MarkedSet, Edge, Reachable;
    forall a | a in MarkedSet(h', s)
      ensures Reachable(allocs, words, roots, a)
    {
      if a in owners { ReachableStep(allocs, words, roots, al.header, a); }
    }
  }

  /** What a scan of al leaves waiting, and what it has dealt with. */
  lemma ScannedIsDone(h: Headers, h': Headers, s: seq<nat>, work: seq<nat>, work': seq<nat>, al: Allocation,
                      allocs: seq<Allocation>, words: map<nat, Word>, owners: set<nat>)
    requires ScannedOrWaiting(h, s, work + [al.Payload()], allocs, words)
    requires MarkedFrom(h, work, h', work', s, owners) && forall b :: Edge(allocs, words, al.header, b) ==> b in owners
    ensures ScannedOrWaiting(h', s, work', allocs, words)
  {
    hide SameButMarks, MarkedSet, Edge;
    forall a, b | a in MarkedSet(h', s) && PayloadAddress(a) !in work' && Edge(allocs, words, a, b)
      ensures b in MarkedSet(h', s)
    {
      if a != al.header {
        assert a in MarkedSet(h, s);
        assert PayloadAddress(a) !in work + [al.Payload()];
      }
    }
  }

  /** Scanning the popped allocation al keeps the mark-phase invariant. */
  lemma AllocationScanned(h: Headers, h': Headers, s: seq<nat>, work: seq<nat>, work': seq<nat>, al: Allocation,
                          allocs: seq<Allocation>, words: map<nat, Word>, roots: seq<nat>)
    requires WorkIsMarked(h, s, work + [al.Payload()]) && ScannedOrWaiting(h, s, work + [al.Payload()], allocs, words)
    requires MarkedIsReachable(h, s, allocs, words, roots)
    requires al in allocs && forall al' :: al' in allocs && al'.header == al.header ==> al' == al
    requires MarkedFrom(h, work, h', work', s, Owners(allocs, Loads(words, Reads(al))))
    ensures WorkIsMarked(h', s, work') && ScannedOrWaiting(h', s, work', allocs, words) && MarkedIsReachable(h', s, allocs, words, roots)
    ensures MarkedSet(h, s) <= MarkedSet(h', s)
  {
    ghost var owners := Owners(allocs, Loads(words, Reads(al)));
    ScannedSuccessors(al, allocs, words);
    hide *;
    ScannedWork(h, h', s, work, work', al.Payload(), owners);
    ScannedIsReachable(h, h', s, work, work', al, allocs, words, roots, owners);
    ScannedIsDone(h, h', s, work, work', al, allocs, words, owners);
  }

  lemma NewWork(h: Headers, h': Headers, s: seq<nat>, work: seq<nat>, work': seq<nat>, owners: set<nat>)
    requires MarkedFrom(h, work, h', work', s, owners)
    ensures MarkedSet(h', s) == MarkedSet(h, s) + owners
    ensures forall w :: w in work' ==> w in work || (w >= HEADER_BYTES && w - HEADER_BYTES in owners)
  {
    hide MarkedSet, SameButMarks;
  }

  /** What waits after the scan of the allocation with payload p is marked. */
  lemma ScannedWork(h: Headers, h': Headers, s: seq<nat>, work: seq<nat>, work': seq<nat>, p: nat, owners: set<nat>)
    requires WorkIsMarked(h, s, work + [p]) && MarkedFrom(h, work, h', work', s, owners)
    ensures WorkIsMarked(h', s, work') && MarkedSet(h, s) <= MarkedSet(h', s)
    ensures p >= HEADER_BYTES && p - HEADER_BYTES in MarkedSet(h, s)
  {
    hide MarkedSet, MarkedFrom;
    NewWork(h, h', s, work, work', owners);
    assert p in work + [p];
    forall w | w in work'
      ensures w >= HEADER_BYTES && w - HEADER_BYTES in MarkedSet(h', s)
    {
      if w in work { assert w in work + [p]; }
    }
  }

  lemma ScannedSuccessors(al: Allocation, allocs: seq<Allocation>, words: map<nat, Word>)
    requires al in allocs && forall al' :: al' in allocs && al'.header == al.header ==> al' == al
    ensures forall b :: Edge(allocs, words, al.header, b) <==> b in Owners(allocs, Loads(words, Reads(al)))
  {
    hide Owners, Reads, Loads;
  }

  /** With an empty worklist the marked allocations are exactly the reachable ones. */
  lemma MarkingIsExact(h: Headers, s: seq<nat>, allocs: seq<Allocation>, words: map<nat, Word>, roots: seq<nat>)
    requires forall a :: a in s ==> a in h
    requires ScannedOrWaiting(h, s, [], allocs, words) && MarkedIsReachable(h, s, allocs, words, roots)
    requires Owners(allocs, roots) <= MarkedSet(h, s)
    requires AllocationsOf(h, s) == allocs
    ensures MarkedSet(h, s) == ReachableSet(allocs, words, roots)
  {
    AllocationsMembers(h, s);
    forall b | b in MarkedSet(h, s)
      ensures exists al :: al in allocs && al.header == b
    {
      assert AllocationAt(h, b) in allocs;
    }
    hide Owners, Edge, Reachable;
    ClosedAndSoundIsReachableSet(allocs, words, roots, MarkedSet(h, s));
  }

  lemma UnmarkedShrinks(h: Headers, h': Headers, s: seq<nat>)
    requires SameButMarks(h, h') && MarkedSet(h, s) <= MarkedSet(h', s)
    ensures UnmarkedSet(h', s) <= UnmarkedSet(h, s)
    ensures MarkedSet(h', s) != MarkedSet(h, s) ==> |UnmarkedSet(h', s)| < |UnmarkedSet(h, s)|
    ensures |UnmarkedSet(h', s)| <= |UnmarkedSet(h, s)|
  {
    forall a | a in UnmarkedSet(h', s)
      ensures a in UnmarkedSet(h, s)
    {
      assert a !in MarkedSet(h', s);
    }
    SubsetSize(UnmarkedSet(h', s), UnmarkedSet(h, s));
    if MarkedSet(h', s) != MarkedSet(h, s) {
      var a :| a in MarkedSet(h', s) && a !in MarkedSet(h, s);
      assert a in UnmarkedSet(h, s) && a !in UnmarkedSet(h', s);
    }
  }

  // ----- Steps of the mark phase -----

  lemma MarkedKeepsValid(h: Headers, h': Headers, work: seq<nat>, work': seq<nat>, s: seq<nat>, owners: set<nat>, head: nat, places: Places,
                         pages: Pages, classes: Classes, free: map<nat, seq<nat>>, blocks: Blocks, sysMap: map<nat, seq<nat>>)
    requires MarkedFrom(h, work, h', work', s, owners) && ActiveList(h, s, head) && LiveIffActive(h, s)
    requires PagesOK(h, pages, classes, free, blocks) && PlacesOK(h, places, pages, classes, blocks) && SystemMapOK(sysMap, h, places)
    ensures ActiveList(h', s, head) && LiveIffActive(h', s) && AllocationsOf(h', s) == AllocationsOf(h, s)
    ensures PagesOK(h', pages, classes, free, blocks) && PlacesOK(h', places, pages, classes, blocks) && SystemMapOK(sysMap, h', places)
  {
    MarksKeepAllocations(h, h', s);
    hide SameButMarks;
    MarksKeepRegistry(h, h', s, head, places, pages, classes, free, blocks, sysMap);
  }

  lemma NoOwners(allocs: seq<Allocation>)
    ensures Owners(allocs, []) == {}
  {
  }

  lemma {:induction false} NoSlotReads(d: Descriptor, base: nat, i: nat, n: nat)
    requires d.referenceSlotOffsets.None?
    ensures SlotReads(d, base, n) == [] && SlotReads(d, base, i) == []
  {
  }

  lemma NoMoreReads(d: Descriptor, base: nat, n: nat)
    requires n > 0 && d.referenceSlotOffsets.Some? && n <= |d.referenceSlotOffsets.value|
    requires (d.referenceSlotOffsets.value[n - 1] + WORD_BYTES) % WORD_LIMIT > d.instanceSize
    ensures SlotReads(d, base, n) == SlotReads(d, base, n - 1)
  {
  }

  lemma MarkedOneMore(h0: Headers, w0: seq<nat>, h1: Headers, w1: seq<nat>, h2: Headers, w2: seq<nat>, s: seq<nat>,
                      allocs: seq<Allocation>, words: map<nat, Word>, seen: seq<nat>, address: nat)
    requires MarkedFrom(h0, w0, h1, w1, s, Owners(allocs, Loads(words, seen)))
    requires MarkedFrom(h1, w1, h2, w2, s, Owners(allocs, [Load(words, address)]))
    ensures MarkedFrom(h0, w0, h2, w2, s, Owners(allocs, Loads(words, seen + [address])))
  {
    hide MarkedFrom;
    LoadsOfOneMore(words, seen, address);
    OwnersOfOneMore(allocs, Loads(words, seen), Load(words, address));
    MarkedThenMarked(h0, w0, h1, w1, h2, w2, s, Owners(allocs, Loads(words, seen)), Owners(allocs, [Load(words, address)]));
  }

  lemma MarkedMore(h0: Headers, w0: seq<nat>, h1: Headers, w1: seq<nat>, h2: Headers, w2: seq<nat>, s: seq<nat>,
                   allocs: seq<Allocation>, words: map<nat, Word>, seen: seq<nat>, more: seq<nat>)
    requires MarkedFrom(h0, w0, h1, w1, s, Owners(allocs, Loads(words, seen)))
    requires MarkedFrom(h1, w1, h2, w2, s, Owners(allocs, Loads(words, more)))
    ensures MarkedFrom(h0, w0, h2, w2, s, Owners(allocs, Loads(words, seen + more)))
  {
    hide MarkedFrom;
    LoadsConcat(words, seen, more);
    OwnersConcat(allocs, Loads(words, seen), Loads(words, more));
    MarkedThenMarked(h0, w0, h1, w1, h2, w2, s, Owners(allocs, Loads(words, seen)), Owners(allocs, Loads(words, more)));
  }

  lemma {:induction false} LoadsConcat(words: map<nat, Word>, a: seq<nat>, b: seq<nat>)
    ensures Loads(words, a + b) == Loads(words, a) + Loads(words, b)
  {
    if b == [] {
      assert a + b == a;
    } else {
      assert (a + b)[..|a + b| - 1] == a + b[..|b| - 1];
      LoadsConcat(words, a, b[..|b| - 1]);
    }
  }

  lemma OwnersConcat(allocs: seq<Allocation>, a: seq<nat>, b: seq<nat>)
    ensures Owners(allocs, a + b) == Owners(allocs, a) + Owners(allocs, b)
  {
  }

  lemma NoLoads(words: map<nat, Word>)
    ensures Loads(words, []) == []
  {
  }

  function NonNullCount(roots: seq<nat>): nat {
    if roots == [] then 0 else NonNullCount(roots[..|roots| - 1]) + (if roots[|roots| - 1] == 0 then 0 else 1)
  }

  function NonNullPlaces(roots: seq<nat>): set<nat> {
    set i: nat | 0 <= i < |roots| && roots[i] != 0
  }

  /** As many roots are counted as there are places that hold one. */
  lemma {:induction false} NonNullCountIs(roots: seq<nat>)
    ensures NonNullCount(roots) == |NonNullPlaces(roots)|
  {
    if roots != [] {
      var last := |roots| - 1;
      NonNullCountIs(roots[..last]);
      assert NonNullPlaces(roots) == NonNullPlaces(roots[..last]) + if roots[last] != 0 then {last} else {};
    }
  }

  lemma NullRootIsIgnored(h: Headers, s: seq<nat>, head: nat)
    requires ActiveList(h, s, head) && LiveIffActive(h, s)
    ensures Owners(AllocationsOf(h, s), [0]) == {}
  {
    ActiveIsNotNull(h, s, head);
    AllocationsMembers(h, s);
    NullHasNoOwner(AllocationsOf(h, s));
    OwnersOfOne(AllocationsOf(h, s), 0);
  }

  /** A marked active allocation passes the collector's sanity test on popped entries. */
  lemma MagicOf(a: nat, h: Headers, s: seq<nat>, places: Places, pages: Pages, classes: Classes, blocks: Blocks)
    requires LiveIffActive(h, s) && PlacesOK(h, places, pages, classes, blocks) && a in MarkedSet(h, s)
    ensures a in s && a in h && h[a].live && h[a].marked && h[a].magic == ALLOCATION_MAGIC
  {
    hide SlotAddress;
    assert PlaceOK(a, h[a], places[a], pages, classes, blocks);
  }

  lemma ScanProgress(h: Headers, h': Headers, s: seq<nat>, w: seq<nat>, w': seq<nat>, owners: set<nat>)
    requires w != [] && MarkedFrom(h, w[..|w| - 1], h', w', s, owners)
    ensures |UnmarkedSet(h', s)| < |UnmarkedSet(h, s)| || (|UnmarkedSet(h', s)| == |UnmarkedSet(h, s)| && |w'| < |w|)
  {
    UnmarkedShrinks(h, h', s);
    if MarkedSet(h', s) == MarkedSet(h, s) {
      assert UnmarkedSet(h', s) == UnmarkedSet(h, s) by { SameMarksSameUnmarked(h, h', s); }
    }
  }

  lemma SameMarksSameUnmarked(h: Headers, h': Headers, s: seq<nat>)
    requires SameButMarks(h, h') && MarkedSet(h', s) == MarkedSet(h, s)
    ensures UnmarkedSet(h', s) == UnmarkedSet(h, s)
  {
    forall a | a in s && a in h
      ensures h'[a].marked == h[a].marked
    {
      assert a in MarkedSet(h', s) <==> a in MarkedSet(h, s);
    }
  }

  // ----- Walking the list -----

  lemma ListEndsAtNull(h: Headers, s: seq<nat>, head: nat, i: nat)
    requires ActiveList(h, s, head) && i <= |s| && At(s, i) == 0
    ensures i == |s|
  {
    assert i < |s| ==> LinkedAt(h, s, i);
  }

  /** The payload bytes of a list of headers. */
  ghost function HeaderBytes(h: Headers, s: seq<nat>): nat {
    if s == [] then 0
    else HeaderBytes(h, s[..|s| - 1]) + (if s[|s| - 1] in h then h[s[|s| - 1]].payloadSize else 0)
  }

  lemma HeaderBytesOfOneMore(h: Headers, s: seq<nat>, a: nat)
    ensures HeaderBytes(h, s + [a]) == HeaderBytes(h, s) + (if a in h then h[a].payloadSize else 0)
  {
    assert (s + [a])[..|s|] == s;
  }

  lemma {:induction false} HeaderBytesAreBytes(h: Headers, s: seq<nat>)
    requires forall a :: a in s ==> a in h
    ensures HeaderBytes(h, s) == Bytes(AllocationsOf(h, s))
  {
    if s != [] {
      var t, a := s[..|s| - 1], s[|s| - 1];
      assert s == t + [a];
      assert forall x :: x in t ==> x in s;
      HeaderBytesAreBytes(h, t);
      AllocationsConcat(h, t, [a]);
      assert AllocationsOf(h, [a]) == [AllocationAt(h, a)];
      BytesConcat(AllocationsOf(h, t), AllocationsOf(h, [a]));
      BytesOfOneMore(AllocationAt(h, a), []);
    }
  }

  /** Midway through the sweep: `done` has been walked and cut down to `kept`; `rest` is untouched. */
  ghost predicate SweepState(h0: Headers, s0: seq<nat>, marked: set<nat>, h: Headers, s: seq<nat>, done: seq<nat>, kept: seq<nat>, rest: seq<nat>) {
    && s0 == done + rest && s == kept + rest
    && (forall a :: a in s0 ==> a in h0)
    && kept == FilterHeaders(done, marked)
    && SameObjects(h0, h, s)
    && (forall a :: a in kept ==> a in h && !h[a].marked)
    && (forall a :: a in rest ==> a in h && (h[a].marked <==> a in marked))
  }

  lemma SweepStart(h: Headers, s: seq<nat>, head: nat)
    requires ActiveList(h, s, head) && LiveIffActive(h, s)
    ensures SweepState(h, s, MarkedSet(h, s), h, s, [], [], s)
    ensures head == At(s, 0) && (head == 0 ==> s == [])
  {
    if s != [] {
      assert LinkedAt(h, s, 0);
    }
  }

  lemma NextInList(h: Headers, s: seq<nat>, head: nat, kept: seq<nat>, rest: seq<nat>)
    requires ActiveList(h, s, head) && s == kept + rest && rest != []
    ensures rest[0] in s && rest[0] in h && rest[0] !in kept && rest[0] !in rest[1..]
    ensures h[rest[0]].next == At(rest[1..], 0) && (h[rest[0]].next == 0 ==> rest[1..] == [])
  {
    var k := |kept|;
    assert s[k] == rest[0];
    assert forall i :: 0 <= i < |kept| ==> s[i] == kept[i];
    assert forall i :: 0 <= i < |rest| ==> s[k + i] == rest[i];
    assert LinkedAt(h, s, k);
    if k + 1 < |s| {
      assert LinkedAt(h, s, k + 1);
      assert rest[1..][0] == s[k + 1];
    }
    forall i | 0 <= i < |rest[1..]|
      ensures rest[1..][i] != rest[0]
    {
      assert rest[1..][i] == s[k + 1 + i];
    }
  }

  lemma SweepSizes(h0: Headers, s0: seq<nat>, h: Headers, marked: set<nat>, s: seq<nat>, done: seq<nat>, kept: seq<nat>, rest: seq<nat>)
    requires SweepState(h0, s0, marked, h, s, done, kept, rest) && rest != []
    ensures rest[0] in h
    ensures HeaderBytes(h0, done + [rest[0]]) == HeaderBytes(h0, done) + h[rest[0]].payloadSize
    ensures HeaderBytes(h0, kept + [rest[0]]) == HeaderBytes(h0, kept) + h[rest[0]].payloadSize
  {
    var a := rest[0];
    assert a in s && a in s0;
    assert Unlinked(Unmarked(h[a])) == Unlinked(Unmarked(h0[a]));
    HeaderBytesOfOneMore(h0, done, a);
    HeaderBytesOfOneMore(h0, kept, a);
  }

  lemma UnmarkKeepsValid(h: Headers, a: nat, s: seq<nat>, head: nat, places: Places, pages: Pages, classes: Classes, free: map<nat, seq<nat>>,
                         blocks: Blocks, sysMap: map<nat, seq<nat>>)
    requires a in h && ActiveList(h, s, head) && LiveIffActive(h, s)
    requires PagesOK(h, pages, classes, free, blocks) && PlacesOK(h, places, pages, classes, blocks) && SystemMapOK(sysMap, h, places)
    ensures var h' := h[a := h[a].(marked := false)];
      && ActiveList(h', s, head) && LiveIffActive(h', s)
      && PagesOK(h', pages, classes, free, blocks) && PlacesOK(h', places, pages, classes, blocks) && SystemMapOK(sysMap, h', places)
  {
    hide ActiveList, LiveIffActive, PagesOK, PlacesOK, SystemMapOK;
    var h' := h[a := h[a].(marked := false)];
    assert SameButMarks(h, h');
    MarksKeepRegistry(h, h', s, head, places, pages, classes, free, blocks, sysMap);
  }

  lemma SweepKeeps(h0: Headers, s0: seq<nat>, marked: set<nat>, h: Headers, s: seq<nat>, done: seq<nat>, kept: seq<nat>, rest: seq<nat>)
    requires SweepState(h0, s0, marked, h, s, done, kept, rest) && rest != [] && rest[0] in h && h[rest[0]].marked
    requires rest[0] !in rest[1..]
    ensures var a := rest[0];
      SweepState(h0, s0, marked, h[a := h[a].(marked := false)], s, done + [a], kept + [a], rest[1..])
  {
    var a := rest[0];
    var h' := h[a := h[a].(marked := false)];
    SplitRest(s0, s, done, kept, rest);
    assert a in rest;
    FilterOneMore(done, a, marked);
    hide FilterHeaders;
    assert SameObjects(h0, h', s) by { UnmarkKeepsObjects(h0, h, s, a); }
    hide SameObjects;
    forall x | x in rest[1..]
      ensures x in rest && x != a
    {
    }
  }

  lemma UnmarkKeepsObjects(h0: Headers, h: Headers, s: seq<nat>, a: nat)
    requires SameObjects(h0, h, s) && a in h
    ensures SameObjects(h0, h[a := h[a].(marked := false)], s)
  {
  }

  lemma SplitRest(s0: seq<nat>, s: seq<nat>, done: seq<nat>, kept: seq<nat>, rest: seq<nat>)
    requires s0 == done + rest && s == kept + rest && rest != []
    ensures s0 == (done + [rest[0]]) + rest[1..] && s == (kept + [rest[0]]) + rest[1..]
  {
    assert rest == [rest[0]] + rest[1..];
  }

  lemma SweepDrops(h0: Headers, s0: seq<nat>, marked: set<nat>, h: Headers, h': Headers, s: seq<nat>, s': seq<nat>, head': nat,
                   done: seq<nat>, kept: seq<nat>, rest: seq<nat>)
    requires SweepState(h0, s0, marked, h, s, done, kept, rest) && rest != [] && rest[0] in h && !h[rest[0]].marked
    requires rest[0] in s && rest[0] !in kept && s' == Remove(s, rest[0]) && KeepsHeaders(h, h', s') && LiveIffActive(h', s')
    ensures SweepState(h0, s0, marked, h', s', done + [rest[0]], kept, rest[1..])
  {
    SplitAtNext(done, kept, rest, s0, s);
    FilterOneMore(done, rest[0], marked);
    assert s' == kept + rest[1..];
    forall x | x in s'
      ensures x in s && x in h
    {
      assert x in kept || x in rest[1..];
    }
    SameObjectsWithout(h0, h, h', s, s');
    MarksAfterDrop(marked, h, h', kept, rest, s');
    hide SameObjects, FilterHeaders;
  }

  lemma SplitAtNext(done: seq<nat>, kept: seq<nat>, rest: seq<nat>, s0: seq<nat>, s: seq<nat>)
    requires s0 == done + rest && s == kept + rest && rest != []
    ensures s0 == done + [rest[0]] + rest[1..] && (rest[0] !in kept ==> Remove(s, rest[0]) == kept + rest[1..])
  {
    assert rest == [rest[0]] + rest[1..];
    assert kept + [rest[0]] + rest[1..] == s;
    if rest[0] !in kept { RemoveMiddle(kept, rest[0], rest[1..]); }
  }

  /** The sweep's view of the marks survives dropping the first of the rest. */
  lemma MarksAfterDrop(marked: set<nat>, h: Headers, h': Headers, kept: seq<nat>, rest: seq<nat>, s': seq<nat>)
    requires rest != [] && s' == kept + rest[1..] && KeepsHeaders(h, h', s')
    requires forall a :: a in kept ==> a in h && !h[a].marked
    requires forall a :: a in rest ==> a in h && (h[a].marked <==> a in marked)
    ensures forall a :: a in kept ==> a in h' && !h'[a].marked
    ensures forall a :: a in rest[1..] ==> a in h' && (h'[a].marked <==> a in marked)
  {
    forall a | a in kept
      ensures a in h' && !h'[a].marked
    {
      assert a in s' && Unlinked(h'[a]) == Unlinked(h[a]);
    }
    forall a | a in rest[1..]
      ensures a in h' && (h'[a].marked <==> a in marked)
    {
      assert a in rest && a in s' && Unlinked(h'[a]) == Unlinked(h[a]);
    }
  }

  lemma SameObjectsWithout(h0: Headers, h: Headers, h': Headers, s: seq<nat>, s': seq<nat>)
    requires SameObjects(h0, h, s) && KeepsHeaders(h, h', s') && forall x :: x in s' ==> x in s && x in h
    ensures SameObjects(h0, h', s')
  {
    forall x | x in s'
      ensures x in h0 && x in h' && Unlinked(Unmarked(h'[x])) == Unlinked(Unmarked(h0[x]))
    {
      assert Unlinked(Unmarked(h[x])) == Unlinked(Unmarked(h0[x]));
      assert Unlinked(h'[x]) == Unlinked(h[x]);
    }
  }

  lemma SweepEnd(h0: Headers, s0: seq<nat>, marked: set<nat>, h: Headers, s: seq<nat>, done: seq<nat>, kept: seq<nat>)
    requires SweepState(h0, s0, marked, h, s, done, kept, []) && LiveIffActive(h, s) && LiveIffActive(h0, s0)
    ensures done == s0 && kept == s
    ensures HeaderBytes(h0, done) == Bytes(AllocationsOf(h0, s0)) && HeaderBytes(h0, kept) == Bytes(AllocationsOf(h, s))
    ensures AllocationsOf(h, s) == Keep(AllocationsOf(h0, s0), marked)
    ensures MarkedSet(h, s) == {}
  {
    assert done + [] == done && kept + [] == kept;
    FilteredAllocations(h0, s0, marked);
    HeaderBytesAreBytes(h0, s0);
    HeaderBytesAreBytes(h0, s);
    SameObjectsSameAllocations(h0, h, s);
  }

  lemma SweepSplit(h0: Headers, s0: seq<nat>, h: Headers, marked: set<nat>, s: seq<nat>, done: seq<nat>, kept: seq<nat>, rest: seq<nat>)
    requires SweepState(h0, s0, marked, h, s, done, kept, rest)
    ensures s == kept + rest
  {
  }

  lemma NoBytes(h: Headers)
    ensures HeaderBytes(h, []) == 0
  {
  }

  // ----- Allocation as clients see it -----

  /** Every payload byte of the given allocations reads as before. */
  ghost predicate KeepsPayloads(words: map<nat, Word>, words': map<nat, Word>, allocs: seq<Allocation>) {
    forall w: nat, al :: al in allocs && al.Contains(w) ==> Load(words', w) == Load(words, w)
  }

  lemma PayloadsKept(h: Headers, s: seq<nat>, places: Places, pages: Pages, classes: Classes, byKey: map<nat, nat>,
                     free: map<nat, seq<nat>>, blocks: Blocks, words: map<nat, Word>, words': map<nat, Word>)
    requires LiveIffActive(h, s) && KeepsWords(words, words', blocks)
    requires PlacesOK(h, places, pages, classes, blocks) && PagesOK(h, pages, classes, free, blocks) && ClassesOK(classes, byKey)
    ensures KeepsPayloads(words, words', AllocationsOf(h, s))
  {
    AllocationsMembers(h, s);
    PlacesKeys(h, places, pages, classes, blocks);
    forall w: nat, al | al in AllocationsOf(h, s) && al.Contains(w)
      ensures Load(words', w) == Load(words, w)
    {
      var a := al.header;
      hide PlacesOK, PagesOK, ClassesOK, Load;
      HeaderInsideBlock(a, h, places, pages, classes, free, blocks, byKey);
      var b := HomeBlock(places, pages, a);
      assert b in blocks && b <= w < b + blocks[b].size;
    }
  }

  lemma AddedToView(h: Headers, s: seq<nat>, h': Headers, s': seq<nat>, added: Allocation)
    requires Added(h, s, h', s', added) && LiveIffActive(h, s) && LiveIffActive(h', s')
    ensures AllocationsOf(h', s') == [added] + AllocationsOf(h, s)
    ensures MarkedSet(h', s') == MarkedSet(h, s)
  {
    assert s'[1..] == s;
    forall x | x in s
      ensures x in h && x in h' && x in s' && h'[x].marked == h[x].marked
    {
      assert Unlinked(h'[x]) == Unlinked(h[x]);
    }
    AllocationsFrame(h, h', s);
  }

  /** What the registry promises about the allocations it hands out. */
  ghost predicate AllocationOK(al: Allocation) {
    && al.header != 0 && al.payloadSize >= 1
    && al.Payload() + al.payloadSize <= WORD_LIMIT
    && (al.typeDescriptor.Some? ==>
          (if al.kind == ArrayKind then al.elementCount else 1) * al.typeDescriptor.value.instanceSize <= al.payloadSize)
  }

  /** No two allocations share a header or a byte. */
  ghost predicate AllocationsDisjoint(allocs: seq<Allocation>) {
    forall i, j :: 0 <= i < |allocs| && 0 <= j < |allocs| && i != j ==>
      allocs[i].Payload() + allocs[i].payloadSize <= allocs[j].header || allocs[j].Payload() + allocs[j].payloadSize <= allocs[i].header
  }

  lemma {:induction false} AllocationsAt(h: Headers, s: seq<nat>, i: nat)
    requires (forall a :: a in s ==> a in h) && i < |s|
    ensures AllocationsOf(h, s)[i] == AllocationAt(h, s[i])
  {
    assert s[0] in s && s[i] in s;
    if i > 0 {
      assert forall a :: a in s[1..] ==> a in s;
      AllocationsAt(h, s[1..], i - 1);
    }
  }

  lemma ViewIsDisjoint(h: Headers, s: seq<nat>, i: nat, j: nat, places: Places, pages: Pages, classes: Classes, byKey: map<nat, nat>,
                       free: map<nat, seq<nat>>, blocks: Blocks)
    requires NoDuplicates(s) && LiveIffActive(h, s) && BlocksApart(blocks)
    requires PlacesOK(h, places, pages, classes, blocks) && PagesOK(h, pages, classes, free, blocks) && ClassesOK(classes, byKey)
    requires i < |s| && j < |s| && i != j
    ensures var x, y := AllocationsOf(h, s)[i], AllocationsOf(h, s)[j];
      x.Payload() + x.payloadSize <= y.header || y.Payload() + y.payloadSize <= x.header
  {
    AllocationsAt(h, s, i);
    AllocationsAt(h, s, j);
    if i < j { Distinct(s, i, j); } else { Distinct(s, j, i); }
    assert s[i] in s && s[j] in s;
    hide NoDuplicates, BlocksApart, PlacesOK, PagesOK, ClassesOK;
    AllocationsApart(s[i], s[j], h, s, places, pages, classes, byKey, free, blocks);
  }

  lemma ViewIsOK(h: Headers, a: nat, places: Places, pages: Pages, classes: Classes, byKey: map<nat, nat>,
                 free: map<nat, seq<nat>>, blocks: Blocks)
    requires PlacesOK(h, places, pages, classes, blocks) && PagesOK(h, pages, classes, free, blocks) && ClassesOK(classes, byKey)
    requires BlocksApart(blocks) && a in h && h[a].live
    ensures AllocationOK(AllocationAt(h, a))
  {
    PlacesKeys(h, places, pages, classes, blocks);
    HeaderInsideBlock(a, h, places, pages, classes, free, blocks, byKey);
    hide SlotAddress, PagesOK, ClassesOK;
    assert PlaceOK(a, h[a], places[a], pages, classes, blocks);
  }

  /** Active allocations are well formed and pairwise disjoint, headers included. */
  lemma RegistryView(h: Headers, s: seq<nat>, head: nat, places: Places, pages: Pages, classes: Classes, byKey: map<nat, nat>,
                     free: map<nat, seq<nat>>, blocks: Blocks)
    requires ActiveList(h, s, head) && LiveIffActive(h, s) && BlocksApart(blocks)
    requires PlacesOK(h, places, pages, classes, blocks) && PagesOK(h, pages, classes, free, blocks) && ClassesOK(classes, byKey)
    ensures AllocationsDisjoint(AllocationsOf(h, s))
    ensures forall al :: al in AllocationsOf(h, s) ==> AllocationOK(al)
  {
    AllocationsMembers(h, s);
    assert NoDuplicates(s);
    hide ActiveList, BlocksApart, PlacesOK, PagesOK, ClassesOK, NoDuplicates;
    forall i, j | 0 <= i < |s| && 0 <= j < |s| && i != j
      ensures var x, y := AllocationsOf(h, s)[i], AllocationsOf(h, s)[j];
        x.Payload() + x.payloadSize <= y.header || y.Payload() + y.payloadSize <= x.header
    {
      ViewIsDisjoint(h, s, i, j, places, pages, classes, byKey, free, blocks);
    }
    hide AllocationOK;
    forall al | al in AllocationsOf(h, s)
      ensures AllocationOK(al)
    {
      ViewIsOK(h, al.header, places, pages, classes, byKey, free, blocks);
    }
  }

  lemma NoWordChange(words: map<nat, Word>, blocks: Blocks)
    ensures KeepsWords(words, words, blocks)
  {
  }

  lemma SameWordsKeepPayloads(words: map<nat, Word>, allocs: seq<Allocation>)
    ensures KeepsPayloads(words, words, allocs)
  {
  }

  lemma LiveHeadersHaveMagic(h: Headers, places: Places, pages: Pages, classes: Classes, blocks: Blocks)
    requires PlacesOK(h, places, pages, classes, blocks)
    ensures forall a :: a in h && h[a].live ==> h[a].magic == ALLOCATION_MAGIC
  {
    hide SlotAddress;
    forall a | a in h && h[a].live
      ensures h[a].magic == ALLOCATION_MAGIC
    {
      assert PlaceOK(a, h[a], places[a], pages, classes, blocks);
    }
  }

  ghost predicate Apart(x: Allocation, y: Allocation) {
    x.Payload() + x.payloadSize <= y.header || y.Payload() + y.payloadSize <= x.header
  }

  lemma TailIsDisjoint(allocs: seq<Allocation>)
    requires AllocationsDisjoint(allocs) && allocs != []
    ensures AllocationsDisjoint(allocs[1..])
  {
    var rest := allocs[1..];
    forall i, j | 0 <= i < |rest| && 0 <= j < |rest| && i != j
      ensures Apart(rest[i], rest[j])
    {
      assert rest[i] == allocs[i + 1] && rest[j] == allocs[j + 1];
    }
  }

  ghost function ByteRange(lo: nat, n: nat): (r: set<nat>)
    ensures forall w: nat :: w in r <==> lo <= w < lo + n
    ensures |r| == n
  {
    if n == 0 then {} else ByteRange(lo, n - 1) + {lo + n - 1}
  }

  ghost function PayloadBytes(allocs: seq<Allocation>): set<nat> {
    if allocs == [] then {} else ByteRange(allocs[0].Payload(), allocs[0].payloadSize) + PayloadBytes(allocs[1..])
  }

  lemma {:induction false} PayloadBytesMembers(allocs: seq<Allocation>, w: nat)
    ensures w in PayloadBytes(allocs) <==> exists al :: al in allocs && al.Contains(w)
  {
    if allocs != [] {
      var rest := allocs[1..];
      PayloadBytesMembers(rest, w);
      assert allocs[0] in allocs;
      if w in PayloadBytes(rest) {
        var al :| al in rest && al.Contains(w);
        assert al in allocs;
      }
      if al :| al in allocs && al.Contains(w) {
        assert al == allocs[0] || al in rest;
      }
    }
  }

  lemma {:induction false} PayloadBytesCount(allocs: seq<Allocation>)
    requires AllocationsDisjoint(allocs)
    ensures |PayloadBytes(allocs)| == Bytes(allocs)
  {
    if allocs != [] {
      TailIsDisjoint(allocs);
      PayloadBytesCount(allocs[1..]);
      var first, rest := ByteRange(allocs[0].Payload(), allocs[0].payloadSize), PayloadBytes(allocs[1..]);
      forall w: nat | w in rest
        ensures w !in first
      {
        PayloadBytesMembers(allocs[1..], w);
        var al :| al in allocs[1..] && al.Contains(w);
        var j :| 0 <= j < |allocs[1..]| && allocs[1..][j] == al;
        assert allocs[j + 1] == al;
      }
      assert first !! rest;
    }
  }

  /** The payload bytes of the active allocations never overflow a machine word. */
  lemma BytesFitAWord(allocs: seq<Allocation>)
    requires AllocationsDisjoint(allocs) && forall al :: al in allocs ==> AllocationOK(al)
    ensures Bytes(allocs) < WORD_LIMIT
  {
    PayloadBytesCount(allocs);
    forall w | w in PayloadBytes(allocs)
      ensures w in ByteRange(1, WORD_LIMIT - 1)
    {
      PayloadBytesMembers(allocs, w);
    }
    SubsetSize(PayloadBytes(allocs), ByteRange(1, WORD_LIMIT - 1));
  }
}
