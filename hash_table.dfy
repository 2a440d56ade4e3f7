/** cHashTable<T> (engine/src/hash_table.hpp): objects kept in fixed-size
    chunks of K = chunkByteSize / sizeof(T) slots, indexed by a one-entry
    hash bucket per identifier hash and found by a scan when the bucket
    misses.

    The model follows the evident intent where the file does not compile:
    - the constructor's `chunkByteSize`, `_maxChunkCount` and
      `hashTableSize` are the descriptor's fields (the bucket count is
      `hashTableByteSize`), and `AllocateNewChunk` is AllocateChunk;
    - Insert's `_context->Create<T>(chunk, idx, args...)` has no
      definition (cContext declares only a parameterless Create), so the
      element, object and identifier, is Insert's input, and its
      identifier is the one hashed into the bucket;
    - Find and Erase take a `std::string` key, hash it with a cMath::Hash
      that takes bytes and a length, and compare it with the 32-byte array
      GetID returns: the key is an identifier, hashed over its 32 bytes;
    - Erase's `_chunks[i][j].id` is the slot object's identifier;
    - GetElement's `info.chunk` is its own `chunkIndex`;
    - DeallocateChunk's trailing `return _chunkCount++` in a void function
      is dropped, so the chunk count goes down by one.
    Two behaviours of the code as written are corrected here and modelled
    as written in ChunkLayout (InsertTargetAsWritten, ScanAllSlots): Insert
    fails instead of overwriting slot (0, 0) when no chunk can be added,
    and the scans of Find and Erase visit live slots only.

    The chunk blocks are the rows of one two-dimensional array with a row
    per possible chunk; allocating a chunk leaves the row's contents as
    they are, as fresh allocator memory holds indeterminate bytes. */
module HashTable {
  import opened Base
  import opened Identity
  import opened ByteHash
  import opened ChunkLayout

  /** sChunkAllocatorDescriptor. */
  datatype AllocatorDescriptor = AllocatorDescriptor(chunkByteSize: nat, maxChunkCount: nat,
                                                     hashTableByteSize: nat)

  /** The descriptor's member defaults. */
  function DefaultDescriptor(): (d: AllocatorDescriptor)
    ensures d.chunkByteSize == 16 * 1024 && d.maxChunkCount == 256 && d.hashTableByteSize == 4096
  {
    AllocatorDescriptor(16 * 1024, 256, 4096)
  }

  /** `_objectCountPerChunk`: the whole objects that fit in a chunk. */
  function ObjectsPerChunk(chunkByteSize: nat, objectByteSize: nat): nat
    requires objectByteSize > 0
  {
    chunkByteSize / objectByteSize
  }

  /** K objects fit in a chunk and K + 1 do not. */
  lemma ObjectsPerChunkFill(chunkByteSize: nat, objectByteSize: nat)
    requires objectByteSize > 0
    ensures var k := ObjectsPerChunk(chunkByteSize, objectByteSize);
            k * objectByteSize <= chunkByteSize < (k + 1) * objectByteSize
  {
    var k := chunkByteSize / objectByteSize;
    assert chunkByteSize == k * objectByteSize + chunkByteSize % objectByteSize;
    assert (k + 1) * objectByteSize == k * objectByteSize + objectByteSize;
  }

  /** What the constructor needs of its descriptor: at least one object per
      chunk, room for one chunk (the first is allocated at once, and Insert
      writes into chunk 0 otherwise), every global index a u32 value, and a bucket count whose u32
      value MakeHashMask accepts. */
  predicate Admissible(d: AllocatorDescriptor, objectByteSize: nat)
  {
    && objectByteSize > 0
    && 0 < ObjectsPerChunk(d.chunkByteSize, objectByteSize)
    && 0 < d.maxChunkCount
    && d.maxChunkCount * ObjectsPerChunk(d.chunkByteSize, objectByteSize) < U32_MODULUS
    && 0 < U32(d.hashTableByteSize) < 0x8000_0000
  }

  /** An admissible descriptor gives fewer than 2^32 objects per chunk and
      a mask below the bucket count. */
  lemma AdmissibleSizes(d: AllocatorDescriptor, objectByteSize: nat)
    requires Admissible(d, objectByteSize)
    ensures ObjectsPerChunk(d.chunkByteSize, objectByteSize) < U32_MODULUS
    ensures MakeHashMask(d.hashTableByteSize) < d.hashTableByteSize
  {
    MulMonotone(1, d.maxChunkCount, ObjectsPerChunk(d.chunkByteSize, objectByteSize));
    MakeHashMaskIsLargestPowerOfTwo(d.hashTableByteSize);
  }

  /** The default descriptor suits every object of 1 to 16384 bytes. */
  lemma DefaultDescriptorAdmissible(objectByteSize: nat)
    requires 0 < objectByteSize <= 16 * 1024
    ensures Admissible(DefaultDescriptor(), objectByteSize)
  {
    var k := ObjectsPerChunk(16 * 1024, objectByteSize);
    ObjectsPerChunkFill(16 * 1024, objectByteSize);
    assert k <= 16 * 1024 by {
      if k > 16 * 1024 {
        MulMonotone(16 * 1024 + 1, k, objectByteSize);
        MulAtLeast(objectByteSize, 16 * 1024 + 1);
      }
    }
    MulMonotone(k, 16 * 1024, 256);
    assert U32(4096) == 4096;
  }

  /** The bucket of an identifier: cMath::Hash of its 32 bytes, masked. It
      is at most the mask. */
  function Bucket(id: Id, mask: nat): (b: nat)
    ensures b <= mask
  {
    Masked(HashValue(id), mask)
  }

  /** hash & mask, at most the mask. */
  function Masked(hash: nat, mask: nat): (b: nat)
    ensures b <= mask
  {
    BitAndAtMost(hash, mask);
    BitAnd(hash, mask)
  }

  /** Every bucket lies inside a table of `size` entries. */
  lemma BucketInTable(id: Id, size: nat)
    requires 0 < U32(size) < 0x8000_0000
    ensures Bucket(id, MakeHashMask(size)) < U32(size) <= size
  {
    MaskedBelowSize(HashValue(id), size);
  }

  class HashTable<T> {
    /** `_objectCountPerChunk`, K. */
    const perChunk: nat
    const maxChunkCount: nat
    /** `_hashTableSize` and `_hashMask`. */
    const hashTableSize: nat
    const hashMask: nat
    /** `_chunks`: row c holds the K objects of chunk c. */
    const slots: array2<Slot<T>>
    /** `_hashTable`: one (chunk, position) entry per bucket. */
    const table: array<ChunkElement>
    var chunkCount: nat
    var elementCount: nat
    /** The live elements in storage order: element g sits in slot
        (g / K, g % K). */
    ghost var elements: seq<Entry<T>>

    /** The sizes the constructor fixes. The mask is below the table size,
        so every bucket is an index of the table. */
    ghost predicate Shape()
      reads this
    {
      && 0 < perChunk < U32_MODULUS
      && maxChunkCount * perChunk < U32_MODULUS
      && slots.Length0 == maxChunkCount && slots.Length1 == perChunk
      && hashMask < hashTableSize == table.Length
      && chunkCount <= maxChunkCount
    }

    /** The object in slot ce, or Vacant outside the chunk rows. */
    ghost function SlotAt(ce: ChunkElement): Slot<T>
      reads this, slots
    {
      if ce.chunk < slots.Length0 && ce.position < slots.Length1
      then slots[ce.chunk, ce.position] else Vacant
    }

    /** The table invariant: the counters agree with the layout of chunks,
        and each live element sits in its slot. */
    ghost predicate Valid()
      reads this, slots
    {
      && Shape()
      && Layout(chunkCount, elementCount, perChunk)
      && |elements| == elementCount
      && forall g :: 0 <= g < elementCount ==>
           SlotAt(SlotOf(g, perChunk)) == Resident(elements[g])
    }

    /** The count Insert and Find compute for the last chunk. */
    function LastChunkObjectCount(): nat
      reads this
      requires perChunk > 0
    {
      GetChunkLocalPosition(U64(chunkCount - 1), elementCount, perChunk)
    }

    /** The slot of the first live element with the key, in storage order,
        if any: what the scans of Find and Erase look for. */
    ghost function FirstLiveSlot(key: Id): Option<ChunkElement>
      reads this
      requires perChunk > 0
    {
      match FirstIndexOf(elements, key)
      case None => None
      case Some(g) => Some(SlotOf(g, perChunk))
    }

    /** The bucket test of Find: the bucket's entry names a chunk below the
        chunk count and a position below the last chunk's count, and the
        object there carries the key. */
    ghost predicate BucketHit(key: Id)
      reads this, slots, table
      requires Shape()
    {
      var ce := table[Bucket(key, hashMask)];
      ce.chunk < chunkCount && ce.position < LastChunkObjectCount()
      && Holds(SlotAt(ce), key)
    }

    /** The result of Find. */
    ghost function FindResult(key: Id): Option<ChunkElement>
      reads this, slots, table
      requires Shape()
    {
      if BucketHit(key) then Some(table[Bucket(key, hashMask)]) else FirstLiveSlot(key)
    }

    /** cHashTable(context, allocatorDesc): an empty table with one chunk.
        The bucket array and the chunks come from the allocator uninitialised;
        the model promises nothing about their first contents. */
    constructor (desc: AllocatorDescriptor, objectByteSize: nat)
      requires Admissible(desc, objectByteSize)
      ensures Valid()
      ensures perChunk == ObjectsPerChunk(desc.chunkByteSize, objectByteSize)
      ensures maxChunkCount == desc.maxChunkCount && hashTableSize == desc.hashTableByteSize
      ensures hashMask == MakeHashMask(desc.hashTableByteSize)
      ensures elements == [] && elementCount == 0 && chunkCount == 1
      ensures fresh(slots) && fresh(table)
    {
      var k := ObjectsPerChunk(desc.chunkByteSize, objectByteSize);
      perChunk := k;
      maxChunkCount := desc.maxChunkCount;
      hashTableSize := desc.hashTableByteSize;
      hashMask := MakeHashMask(desc.hashTableByteSize);
      AdmissibleSizes(desc, objectByteSize);
      slots := new Slot<T>[desc.maxChunkCount, k];
      table := new ChunkElement[desc.hashTableByteSize];
      chunkCount := 0;
      elementCount := 0;
      elements := [];
      new;
      var _ := AllocateChunk();
    }

    /** AllocateChunk: the index of a new chunk at the end, or 0 with the
        count unchanged when maxChunkCount chunks exist already. */
    method AllocateChunk() returns (index: nat)
      requires Shape()
      modifies this
      ensures Shape()
      ensures old(chunkCount) >= maxChunkCount ==> index == 0 && chunkCount == old(chunkCount)
      ensures old(chunkCount) < maxChunkCount ==>
                index == old(chunkCount) && chunkCount == old(chunkCount) + 1
      ensures elementCount == old(elementCount) && elements == old(elements)
    {
      if chunkCount >= maxChunkCount {
        return 0;
      }
      index := chunkCount;
      chunkCount := chunkCount + 1;
    }

    /** DeallocateChunk(chunkIndex): nothing for an index at or past the
        chunk count; otherwise one chunk fewer. */
    method DeallocateChunk(chunkIndex: nat)
      requires Shape()
      modifies this
      ensures Shape()
      ensures chunkIndex >= old(chunkCount) ==> chunkCount == old(chunkCount)
      ensures chunkIndex < old(chunkCount) ==> chunkCount == old(chunkCount) - 1
      ensures elementCount == old(elementCount) && elements == old(elements)
    {
      if chunkIndex >= chunkCount {
        return;
      }
      chunkCount := chunkCount - 1;
    }

    /** GetElementCount. */
    function GetElementCount(): (n: nat)
      reads this, slots
      requires Valid()
      ensures n == |elements|
    {
      elementCount
    }

    /** GetElement(index): the element with that index, or None past the
        last one. */
    function GetElement(index: nat): (r: Option<Entry<T>>)
      reads this, slots
      requires Valid() && index < U32_MODULUS
      ensures index < |elements| ==> r == Some(elements[index])
      ensures index >= |elements| ==> r == None
    {
      ElementLookup(index, chunkCount, elementCount, perChunk);
      var chunkIndex := GetChunkIndex(index, perChunk);
      if chunkIndex >= chunkCount then None
      else
        var chunkObjectCount := GetChunkLocalPosition(chunkIndex, elementCount, perChunk);
        var localPosition := GetChunkLocalPosition(chunkIndex, index, perChunk);
        if localPosition >= chunkObjectCount then None
        else
          assert SlotAt(SlotOf(index, perChunk)) == Resident(elements[index]);
          Some(slots[chunkIndex, localPosition].entry)
    }

    /** The nested scan of Find and Erase over the live slots, chunk by
        chunk and slot by slot: the slot of the first live element with the
        key. */
    method ScanLive(key: Id) returns (found: Option<ChunkElement>)
      requires Valid()
      ensures found == FirstLiveSlot(key)
    {
      var i := 0;
      ghost var scanned := 0;
      while i < chunkCount
        invariant i <= chunkCount
        invariant i < chunkCount ==> scanned == i * perChunk
        invariant i == chunkCount ==> scanned == elementCount
        invariant scanned <= elementCount
        invariant forall g :: 0 <= g < scanned ==> elements[g].id != key
      {
        ChunkStartBelowCount(i, chunkCount, elementCount, perChunk);
        var j, hit := ScanChunk(i, i * perChunk, key);
        if hit {
          FirstIndexOfIs(elements, key, i * perChunk + j);
          return Some(ChunkElement(i, j));
        }
        scanned := i * perChunk + j;
        ScanNextChunk(i, j, scanned);
        i := i + 1;
      }
      FirstIndexOfNone(elements, key);
      found := None;
    }

    /** The inner loop of the scan over chunk i, whose first global index
        is `start`: the position of the first live slot holding the key, or
        the position where the chunk or the live elements end. */
    method ScanChunk(i: nat, start: nat, key: Id) returns (j: nat, hit: bool)
      requires Valid() && i < chunkCount && start == i * perChunk <= elementCount
      ensures j <= perChunk && start + j <= elementCount
      ensures forall g :: start <= g < start + j ==> elements[g].id != key
      ensures hit ==> && j < perChunk && start + j < elementCount
                      && elements[start + j].id == key
                      && SlotOf(start + j, perChunk) == ChunkElement(i, j)
      ensures !hit ==> j == perChunk || start + j == elementCount
    {
      j := 0;
      while j < perChunk && start + j < elementCount
        invariant j <= perChunk && start + j <= elementCount
        invariant forall g :: start <= g < start + j ==> elements[g].id != key
      {
        SlotOfPair(i, j, perChunk);
        assert SlotAt(ChunkElement(i, j)) == Resident(elements[start + j]);
        if Holds(slots[i, j], key) {
          return j, true;
        }
        j := j + 1;
      }
      hit := false;
    }

    /** After the inner loop over chunk i the scan has reached the next
        chunk's first index, or the end of the elements after the last. */
    lemma ScanNextChunk(i: nat, j: nat, scanned: nat)
      requires Valid() && i < chunkCount
      requires j <= perChunk && scanned == i * perChunk + j <= elementCount
      requires j == perChunk || scanned == elementCount
      ensures i + 1 < chunkCount ==> scanned == (i + 1) * perChunk
      ensures i + 1 == chunkCount ==> scanned == elementCount
    {
      assert (i + 1) * perChunk == i * perChunk + perChunk;
      if i + 1 < chunkCount {
        MulMonotone(i + 1, chunkCount - 1, perChunk);
      } else {
        assert (i + 1) * perChunk >= elementCount;
      }
    }

    /** Find(key): the bucket's slot when the bucket test passes, otherwise
        the first live element with the key. */
    method Find(key: Id) returns (found: Option<ChunkElement>)
      requires Valid()
      ensures found == FindResult(key)
    {
      var hash := Hash(key);
      var ce := table[Masked(hash, hashMask)];
      var chunkObjectCount := LastChunkObjectCount();
      if ce.chunk < chunkCount && ce.position < chunkObjectCount {
        CountsFit();
        LiveSlotBelowLastCount(ce.chunk, ce.position, chunkCount, elementCount, perChunk);
        if Holds(slots[ce.chunk, ce.position], key) {
          return Some(ce);
        }
      }
      found := ScanLive(key);
    }

    /** Slot ce holds live element chunk * K + position, which carries the
        key. */
    ghost predicate LiveWithKey(ce: ChunkElement, key: Id)
      reads this
    {
      && ce.position < perChunk
      && ce.chunk * perChunk + ce.position < |elements|
      && elements[ce.chunk * perChunk + ce.position].id == key
    }

    /** Every chunk index times K, and every element count, is a u32
        value. */
    lemma CountsFit()
      requires Valid()
      ensures chunkCount * perChunk < U32_MODULUS && elementCount < U32_MODULUS
    {
      MulMonotone(chunkCount, maxChunkCount, perChunk);
    }

    /** Whatever Find returns is the slot of a live element carrying the
        key, and it returns None exactly when no live element carries it. */
    lemma FindIsSound(key: Id)
      requires Valid()
      ensures FindResult(key).Some? ==> LiveWithKey(FindResult(key).value, key)
      ensures FindResult(key).None? <==> forall g :: 0 <= g < |elements| ==> elements[g].id != key
    {
      if BucketHit(key) {
        var ce := table[Bucket(key, hashMask)];
        BucketHitIsLive(key);
        LiveWithKeyIsLive(ce, key);
      } else {
        FirstLiveSlotIsLive(key);
      }
    }

    /** A slot that holds the key is a live element with the key. */
    lemma LiveWithKeyIsLive(ce: ChunkElement, key: Id)
      requires LiveWithKey(ce, key)
      ensures !forall g :: 0 <= g < |elements| ==> elements[g].id != key
    {
      var g := ce.chunk * perChunk + ce.position;
      assert elements[g].id == key;
    }

    /** The first live element with the key, if any, lies in its slot. */
    lemma FirstLiveSlotIsLive(key: Id)
      requires Valid()
      ensures FirstLiveSlot(key).Some? ==> LiveWithKey(FirstLiveSlot(key).value, key)
      ensures FirstLiveSlot(key).None? <==> forall g :: 0 <= g < |elements| ==> elements[g].id != key
    {
      if FirstIndexOf(elements, key).Some? {
        var g := FirstIndexOf(elements, key).value;
        assert LiveWithKey(SlotOf(g, perChunk), key);
      }
    }

    /** When the bucket test passes, the bucket names a live slot. */
    lemma BucketHitIsLive(key: Id)
      requires Valid() && BucketHit(key)
      ensures LiveWithKey(table[Bucket(key, hashMask)], key)
    {
      var ce := table[Bucket(key, hashMask)];
      CountsFit();
      LiveSlotBelowLastCount(ce.chunk, ce.position, chunkCount, elementCount, perChunk);
      ResidentAt(ce.chunk, ce.position);
    }

    /** Slot (c, p) of a live index holds the element with that index. */
    lemma ResidentAt(c: nat, p: nat)
      requires Valid() && p < perChunk && c * perChunk + p < elementCount
      ensures SlotAt(ChunkElement(c, p)) == Resident(elements[c * perChunk + p])
    {
      var g := c * perChunk + p;
      SlotOfPair(c, p, perChunk);
      assert SlotAt(SlotOf(g, perChunk)) == Resident(elements[g]);
    }

    /** Insert(value): the element goes to slot (ec / K, ec % K), in a new
        chunk when the last one is full; the count grows by one and the
        element's bucket names its slot, replacing what it held. At the
        chunk ceiling with every chunk full, None and nothing changes. */
    method Insert(e: Entry<T>) returns (placed: Option<ChunkElement>)
      requires Valid()
      modifies this, slots, table
      ensures Valid()
      ensures old(elementCount) >= maxChunkCount * perChunk ==>
                placed == None && elements == old(elements) && chunkCount == old(chunkCount)
                && unchanged(slots) && unchanged(table)
      ensures old(elementCount) < maxChunkCount * perChunk ==>
                && placed == Some(SlotOf(old(elementCount), perChunk))
                && elements == old(elements) + [e]
                && chunkCount == (if old(elementCount) == old(chunkCount) * perChunk
                                  then old(chunkCount) + 1 else old(chunkCount))
                && table[..] == old(table[..])[Bucket(e.id, hashMask) := placed.value]
                && (forall c, p :: 0 <= c < slots.Length0 && 0 <= p < slots.Length1 ==>
                      slots[c, p] == if ChunkElement(c, p) == placed.value then Resident(e)
                                     else old(slots[c, p]))
    {
      InsertTargetAppends(chunkCount, elementCount, perChunk, maxChunkCount);
      var elementChunkIndex := GetChunkIndex(elementCount, perChunk);
      var elementLocalPosition := GetChunkLocalPosition(elementChunkIndex, elementCount, perChunk);
      var chunkObjectCount := LastChunkObjectCount();
      if chunkObjectCount >= perChunk {
        if chunkCount >= maxChunkCount {
          return None;
        }
        elementChunkIndex := AllocateChunk();
        elementLocalPosition := 0;
      }
      var ce := ChunkElement(elementChunkIndex, elementLocalPosition);
      ghost var target := SlotOf(elementCount, perChunk);
      assert ce == target;
      PlaceElement(ce, e);
      var hash := Hash(e.id);
      table[Masked(hash, hashMask)] := ce;
      return Some(ce);
    }

    /** The write of Insert: element elementCount into its slot, which lies
        in a chunk below the chunk count. */
    method PlaceElement(ce: ChunkElement, e: Entry<T>)
      requires Shape() && |elements| == elementCount
      requires Layout(chunkCount, elementCount + 1, perChunk)
      requires ce == SlotOf(elementCount, perChunk) && ce.chunk < chunkCount
      requires forall g :: 0 <= g < elementCount ==>
                 SlotAt(SlotOf(g, perChunk)) == Resident(elements[g])
      modifies this, slots
      ensures Valid()
      ensures elements == old(elements) + [e] && elementCount == old(elementCount) + 1
      ensures chunkCount == old(chunkCount)
      ensures forall c, p :: 0 <= c < slots.Length0 && 0 <= p < slots.Length1 ==>
                slots[c, p] == if ChunkElement(c, p) == ce then Resident(e) else old(slots[c, p])
    {
      slots[ce.chunk, ce.position] := Resident(e);
      elements := elements + [e];
      elementCount := elementCount + 1;
      forall g | 0 <= g < elementCount
        ensures SlotAt(SlotOf(g, perChunk)) == Resident(elements[g])
      {
        if g < elementCount - 1 {
          SlotOfInjective(g, elementCount - 1, perChunk);
        }
      }
    }

    /** Erase(key): nothing when no live element carries the key. Otherwise
        the first one's slot receives the last element, the count drops by
        one, and the last chunk goes when that element was its only one. */
    method Erase(key: Id)
      requires Valid()
      modifies this, slots
      ensures Valid()
      ensures old(FirstLiveSlot(key)).None? ==>
                elements == old(elements) && chunkCount == old(chunkCount) && unchanged(slots)
      ensures old(FirstLiveSlot(key)).Some? ==>
                var g := FirstIndexOf(old(elements), key).value;
                var last := |old(elements)| - 1;
                && elements == old(elements)[g := old(elements)[last]][..last]
                && chunkCount == (if last % perChunk == 0 then old(chunkCount) - 1 else old(chunkCount))
                && (forall c, p :: 0 <= c < slots.Length0 && 0 <= p < slots.Length1 ==>
                      slots[c, p] == if ChunkElement(c, p) == SlotOf(g, perChunk)
                                     then old(SlotAt(SlotOf(last, perChunk)))
                                     else old(slots[c, p]))
    {
      var found := ScanLive(key);
      if found.None? {
        return;
      }
      var ce := found.value;
      ghost var g := FirstIndexOf(elements, key).value;
      CountsFit();
      EraseLayout(chunkCount, elementCount, perChunk);
      var (last, lastChunkObjectCount) := LastSlot(elementCount, perChunk);
      MoveLast(ce, last, g);
      if lastChunkObjectCount == 1 {
        DeallocateChunk(last.chunk);
      }
    }

    /** The copy of Erase: the last element into slot ce of element g, and
        one element fewer. */
    method MoveLast(ce: ChunkElement, last: ChunkElement, ghost g: nat)
      requires Valid() && elementCount > 0
      requires g < elementCount && ce == SlotOf(g, perChunk)
      requires last == SlotOf(elementCount - 1, perChunk)
      modifies this, slots
      ensures Shape() && |elements| == elementCount
      ensures elementCount == old(elementCount) - 1 && chunkCount == old(chunkCount)
      ensures elements == old(elements)[g := old(elements)[elementCount]][..elementCount]
      ensures forall h :: 0 <= h < elementCount ==>
                SlotAt(SlotOf(h, perChunk)) == Resident(elements[h])
      ensures forall c, p :: 0 <= c < slots.Length0 && 0 <= p < slots.Length1 ==>
                slots[c, p] == if ChunkElement(c, p) == ce then old(SlotAt(last)) else old(slots[c, p])
    {
      LiveChunkBelowCount(g, chunkCount, elementCount, perChunk);
      LiveChunkBelowCount(elementCount - 1, chunkCount, elementCount, perChunk);
      ghost var moved := elements[elementCount - 1];
      slots[ce.chunk, ce.position] := slots[last.chunk, last.position];
      elements := elements[g := moved][..elementCount - 1];
      elementCount := elementCount - 1;
      forall h | 0 <= h < elementCount
        ensures SlotAt(SlotOf(h, perChunk)) == Resident(elements[h])
      {
        if h != g {
          SlotOfInjective(h, g, perChunk);
        }
      }
    }
  }

  /** FirstIndexOf is the first index with the key. */
  lemma FirstIndexOfIs<T>(elements: seq<Entry<T>>, key: Id, n: nat)
    requires n < |elements| && elements[n].id == key
    requires forall g :: 0 <= g < n ==> elements[g].id != key
    ensures FirstIndexOf(elements, key) == Some(n)
  {
  }

  lemma FirstIndexOfNone<T>(elements: seq<Entry<T>>, key: Id)
    requires forall g :: 0 <= g < |elements| ==> elements[g].id != key
    ensures FirstIndexOf(elements, key) == None
  {
  }
}
