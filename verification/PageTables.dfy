/** Lemmas about the two lookup tables keyed by address page. */
module PageTables {
  import opened MachineWords
  import opened HeapModel
  import opened HeapInvariant

  /** The two key values a DenseMap reserves for its empty and tombstone markers. */
  predicate IsReservedDenseMapKey(key: Word) {
    key == WORD_LIMIT - 1 || key == WORD_LIMIT - 2
  }

  /** No address page is a reserved key, so the registration aborts are unreachable. */
  lemma AddressPageIsNeverReserved(address: Word)
    ensures !IsReservedDenseMapKey(address / ADDRESS_PAGE_BYTES)
  {
  }

  // ----- System allocations: registration -----

  function Bucket(sysMap: map<nat, seq<nat>>, key: nat): seq<nat> {
    if key in sysMap then sysMap[key] else []
  }

  /** sysMap' is sysMap with a appended to the buckets lo..hi. */
  ghost predicate Registered(sysMap: map<nat, seq<nat>>, sysMap': map<nat, seq<nat>>, a: nat, lo: nat, hi: nat) {
    forall key: nat ::
      if lo <= key < hi then key in sysMap' && sysMap'[key] == Bucket(sysMap, key) + [a]
      else Bucket(sysMap', key) == Bucket(sysMap, key) && (key in sysMap' <==> key in sysMap)
  }

  lemma RegisterOne(sysMap: map<nat, seq<nat>>, m: map<nat, seq<nat>>, a: nat, lo: nat, hi: nat)
    requires lo <= hi && Registered(sysMap, m, a, lo, hi)
    ensures Registered(sysMap, m[hi := Bucket(m, hi) + [a]], a, lo, hi + 1)
  {
  }

  lemma RegisterKeepsMap(sysMap: map<nat, seq<nat>>, sysMap': map<nat, seq<nat>>, h: Headers, h': Headers, places: Places, a: nat, base: nat)
    requires SystemMapOK(sysMap, h, places)
    requires a !in places && a in h' && h'[a].payloadSize >= 1
    requires forall x :: x in places ==> x in h && x in h' && h'[x].payloadSize == h[x].payloadSize
    requires Registered(sysMap, sysMap', a, PayloadAddress(a) / ADDRESS_PAGE_BYTES,
               (PayloadAddress(a) + h'[a].payloadSize - 1) / ADDRESS_PAGE_BYTES + 1)
    ensures SystemMapOK(sysMap', h', places[a := SystemPlace(base)])
  {
    hide NoDuplicates;
    var places' := places[a := SystemPlace(base)];
    forall key | key in sysMap'
      ensures BucketOK(sysMap'[key], key, h', places')
    {
      var before := Bucket(sysMap, key);
      if key in sysMap { assert BucketOK(before, key, h, places); }
      assert a !in before;
      BucketGrows(before, a);
      assert NoDuplicates([]) by { NothingRepeats(); }
      assert Bucket(sysMap', key) == sysMap'[key];
    }
    hide BucketOK, Covers;
    forall x, key | x in places' && x in h' && places'[x].SystemPlace? && Covers(x, h'[x].payloadSize, key)
      ensures key in sysMap' && x in sysMap'[key]
    {
      if x == a {
        RangeOfCovers(a, h'[a].payloadSize, key);
      } else {
        assert key in sysMap && x in sysMap[key];
        assert Bucket(sysMap', key) == sysMap[key] || sysMap'[key] == sysMap[key] + [a];
      }
    }
  }

  lemma RangeOfCovers(a: nat, size: nat, key: nat)
    requires Covers(a, size, key)
    ensures PayloadAddress(a) / ADDRESS_PAGE_BYTES <= key < (PayloadAddress(a) + size - 1) / ADDRESS_PAGE_BYTES + 1
  {
  }

  lemma NothingRepeats()
    ensures NoDuplicates([])
  {
  }

  lemma BucketGrows(bucket: seq<nat>, a: nat)
    requires a !in bucket
    ensures NoDuplicates(bucket) ==> NoDuplicates(bucket + [a])
  {
    var t := bucket + [a];
    assert forall i :: 0 <= i < |bucket| ==> t[i] == bucket[i];
    assert forall i :: 0 <= i < |bucket| ==> bucket[i] in bucket;
  }

  // ----- System allocations: removal -----

  function SwapWithLast(bucket: seq<nat>, j: nat): seq<nat>
    requires j < |bucket|
  {
    bucket[j := bucket[|bucket| - 1]][..|bucket| - 1]
  }

  lemma SwapWithLastRemoves(bucket: seq<nat>, j: nat)
    requires j < |bucket| && NoDuplicates(bucket)
    ensures NoDuplicates(SwapWithLast(bucket, j))
    ensures forall x :: x in SwapWithLast(bucket, j) <==> x in bucket && x != bucket[j]
  {
    var t := SwapWithLast(bucket, j);
    var last := |bucket| - 1;
    assert forall i :: 0 <= i < last ==> t[i] == if i == j then bucket[last] else bucket[i];
    forall x | x in bucket && x != bucket[j]
      ensures x in t
    {
      var i :| 0 <= i < |bucket| && bucket[i] == x;
      assert t[if i == last then j else i] == x;
    }
  }

  /** bucket' holds exactly the members of bucket other than a, without repetition. */
  ghost predicate BucketMinus(bucket: seq<nat>, bucket': seq<nat>, a: nat) {
    && (NoDuplicates(bucket) ==> NoDuplicates(bucket'))
    && (forall x :: x in bucket' <==> x in bucket && x != a)
  }

  ghost predicate Unregistered(sysMap: map<nat, seq<nat>>, sysMap': map<nat, seq<nat>>, a: nat, lo: nat, hi: nat) {
    && (forall key: nat :: key in sysMap' ==> sysMap'[key] != [])
    && (forall key: nat {:trigger Bucket(sysMap', key)} :: lo <= key < hi ==> BucketMinus(Bucket(sysMap, key), Bucket(sysMap', key), a))
    && (forall key: nat {:trigger Bucket(sysMap', key)} :: !(lo <= key < hi) ==> Bucket(sysMap', key) == Bucket(sysMap, key))
  }

  lemma UnregisterOne(sysMap: map<nat, seq<nat>>, m: map<nat, seq<nat>>, m': map<nat, seq<nat>>, a: nat, lo: nat, hi: nat)
    requires lo <= hi && Unregistered(sysMap, m, a, lo, hi)
    requires forall key: nat :: key in m' ==> m'[key] != []
    requires forall key: nat {:trigger Bucket(m', key)} :: key != hi ==> Bucket(m', key) == Bucket(m, key)
    requires BucketMinus(Bucket(m, hi), Bucket(m', hi), a)
    ensures Unregistered(sysMap, m', a, lo, hi + 1)
  {
    hide NoDuplicates;
    forall key: nat | lo <= key < hi
      ensures BucketMinus(Bucket(sysMap, key), Bucket(m', key), a)
    {
      assert Bucket(m', key) == Bucket(m, key);
    }
    assert Bucket(m, hi) == Bucket(sysMap, hi);
    forall key: nat | !(lo <= key < hi + 1)
      ensures Bucket(m', key) == Bucket(sysMap, key)
    {
      assert Bucket(m', key) == Bucket(m, key);
    }
  }

  lemma UnregisterKeepsMap(sysMap: map<nat, seq<nat>>, sysMap': map<nat, seq<nat>>, h: Headers, h': Headers, places: Places, a: nat)
    requires SystemMapOK(sysMap, h, places)
    requires a in places && a in h
    requires forall x :: x in places && x != a ==> x in h && x in h' && h'[x].payloadSize == h[x].payloadSize
    requires h[a].payloadSize >= 1
    requires Unregistered(sysMap, sysMap', a, PayloadAddress(a) / ADDRESS_PAGE_BYTES,
               (PayloadAddress(a) + h[a].payloadSize - 1) / ADDRESS_PAGE_BYTES + 1)
    ensures SystemMapOK(sysMap', h', places - {a})
  {
    hide NoDuplicates;
    forall key | key in sysMap'
      ensures BucketOK(sysMap'[key], key, h', places - {a})
    {
      UnregisteredBucket(sysMap, sysMap', h, places, a, key);
    }
    forall x, key | x in places - {a} && x in h' && places[x].SystemPlace? && Covers(x, h'[x].payloadSize, key)
      ensures key in sysMap' && x in sysMap'[key]
    {
      assert key in sysMap && x in sysMap[key];
      assert x in Bucket(sysMap, key);
      assert x in Bucket(sysMap', key);
    }
  }

  lemma UnregisteredBucket(sysMap: map<nat, seq<nat>>, sysMap': map<nat, seq<nat>>, h: Headers, places: Places, a: nat, key: nat)
    requires SystemMapOK(sysMap, h, places)
    requires a in places && a in h && h[a].payloadSize >= 1 && key in sysMap'
    requires Unregistered(sysMap, sysMap', a, PayloadAddress(a) / ADDRESS_PAGE_BYTES,
               (PayloadAddress(a) + h[a].payloadSize - 1) / ADDRESS_PAGE_BYTES + 1)
    ensures sysMap'[key] != [] && NoDuplicates(sysMap'[key]) && a !in sysMap'[key]
    ensures forall x :: x in sysMap'[key] ==> x in places && x in h && places[x].SystemPlace? && Covers(x, h[x].payloadSize, key)
  {
    hide NoDuplicates;
    assert Bucket(sysMap', key) == sysMap'[key];
    var x0 := sysMap'[key][0];
    assert x0 in Bucket(sysMap', key);
    assert x0 in Bucket(sysMap, key);
    assert BucketOK(sysMap[key], key, h, places);
  }

  // ----- Slab pages -----

  lemma SlabPageSpan(p: nat)
    requires p % ADDRESS_PAGE_BYTES == 0
    ensures (p + SLAB_PAGE_BYTES - 1) / ADDRESS_PAGE_BYTES == p / ADDRESS_PAGE_BYTES + SLAB_ADDRESS_PAGES - 1
  {
  }

  /** An address belongs to a slab page exactly when its address page does. */
  lemma OnSlabPageIffInside(address: nat, p: nat)
    requires p % ADDRESS_PAGE_BYTES == 0
    ensures OnSlabPage(address / ADDRESS_PAGE_BYTES, p) <==> p <= address < p + SLAB_PAGE_BYTES
  {
  }
}
