/** The arithmetic of cHashTable<T> (engine/src/hash_table.hpp): how a
    global element index splits into a chunk and a slot, how many elements
    the last chunk holds, where Insert puts a new element, and the hash
    mask. Also the table's slot contents and the code of Insert, Find and
    Erase as written, on values, for the two defects described beside
    InsertTargetAsWritten and ScanAllSlots.

    K stands for `_objectCountPerChunk` (chunkByteSize / sizeof(T)) and is
    positive. The index helpers take and return u32 values: an int argument
    is narrowed to u32 on entry, as the call sites' implicit conversions
    from usize do. */
module ChunkLayout {
  import opened Base
  import opened Identity

  /** sChunkElement: a (chunk, position) pair of u32 values. */
  datatype ChunkElement = ChunkElement(chunk: nat, position: nat)

  /** An element of the table: its identifier and the object. */
  datatype Entry<T> = Entry(id: Id, value: T)

  /** A slot of a chunk: storage no object was ever constructed in, or an
      object (live, or a stale copy left behind by Erase). */
  datatype Slot<T> = Vacant | Resident(entry: Entry<T>)

  predicate Holds<T>(slot: Slot<T>, key: Id)
  {
    slot.Resident? && slot.entry.id == key
  }

  // ---------------------------------------------------------------------
  // Arithmetic lemmas

  lemma MulMonotone(a: int, b: int, k: nat)
    requires a <= b
    ensures a * k <= b * k
  {
    if a < b && k > 0 {
      MulAtLeast(b - a, k);
      assert b * k - a * k == (b - a) * k;
    }
  }

  /** g splits uniquely into chunk g / K and slot g % K. */
  lemma SplitUnique(g: int, k: nat, c: int, p: int)
    requires k > 0 && g == c * k + p && 0 <= p < k
    ensures c == g / k && p == g % k
  {
    DivModUnique(g, k, c, p);
  }

  /** A global index below c * K lies in a chunk before c. */
  lemma ChunkBelow(g: nat, k: nat, c: nat)
    requires k > 0 && g < c * k
    ensures g / k < c
  {
    if g / k >= c {
      MulMonotone(c, g / k, k);
    }
  }

  // ---------------------------------------------------------------------
  // GetChunkIndex, GetChunkLocalPosition

  /** GetChunkIndex(globalPosition): the u32 quotient by K. */
  function GetChunkIndex(globalPosition: int, perChunk: nat): nat
    requires perChunk > 0
  {
    U32(U32(globalPosition) / perChunk)
  }

  /** GetChunkLocalPosition(chunkIndex, globalPosition): the u32 difference
      between the position and the chunk's first index, chunkIndex * K
      narrowed to u32; both subtraction and narrowing wrap. */
  function GetChunkLocalPosition(chunkIndex: int, globalPosition: int, perChunk: nat): (l: nat)
    ensures l < U32_MODULUS
  {
    var boundary := U32(U32(chunkIndex) * perChunk);
    U32(U32(globalPosition) - boundary)
  }

  /** For a u32 index g, the two helpers give chunk g / K and slot g % K,
      and chunk * K + slot recovers g. */
  lemma SplitGlobalPosition(g: nat, k: nat)
    requires k > 0 && g < U32_MODULUS
    ensures var c := GetChunkIndex(g, k);
            var l := GetChunkLocalPosition(c, g, k);
            c == g / k && l == g % k && c * k + l == g && l < k
  {
    var c := g / k;
    assert g == c * k + g % k;
    assert U32(c * k) == c * k;
  }

  /** With no chunk at all, the usize `_chunkCount - 1` narrows to the u32
      value 2^32 - 1, and the "last chunk count" of an empty store wraps
      round to exactly K. */
  lemma EmptyStoreLastCount(k: nat)
    requires 0 < k < U32_MODULUS
    ensures GetChunkLocalPosition(U64(0 - 1), 0, k) == k
  {
    var m := U32_MODULUS;
    assert U64(0 - 1) == U64_MODULUS - 1;
    DivModUnique(U64_MODULUS - 1, m, m - 1, m - 1);
    assert U32(U64(0 - 1)) == m - 1;
    assert (m - 1) * k == (k - 1) * m + (m - k);
    DivModUnique((m - 1) * k, m, k - 1, m - k);
    assert U32((m - 1) * k) == m - k;
    DivModUnique(0 - (m - k), m, -1, k);
  }

  /** How elements sit in chunks: chunks 0 .. count - 2 are full, and the
      last chunk holds between 1 and K elements; an empty store has at most
      one (empty) chunk. */
  predicate Layout(chunkCount: nat, elementCount: nat, perChunk: nat)
  {
    if elementCount == 0 then chunkCount <= 1
    else (chunkCount - 1) * perChunk < elementCount <= chunkCount * perChunk
  }

  /** The "chunk object count" Insert and Find compute,
      GetChunkLocalPosition(_chunkCount - 1, _elementCount): the number of
      elements in the last chunk, and K for a store without chunks. It
      reaches K exactly when every chunk is full. */
  lemma LastChunkCount(cc: nat, ec: nat, k: nat)
    requires 0 < k < U32_MODULUS && Layout(cc, ec, k) && cc * k < U32_MODULUS
    ensures var n := GetChunkLocalPosition(U64(cc - 1), ec, k);
            && (cc == 0 ==> n == k)
            && (cc > 0 ==> n == ec - (cc - 1) * k)
            && n <= k
            && (n >= k <==> ec == cc * k)
  {
    if cc == 0 {
      EmptyStoreLastCount(k);
    } else {
      var b := (cc - 1) * k;
      MulPredecessor(cc, k);
      assert ec == 0 ==> b == 0;
      LastChunkCountFrom(cc, ec, k, b);
    }
  }

  lemma MulPredecessor(c: nat, k: nat)
    requires c > 0
    ensures (c - 1) * k + k == c * k
  {
  }

  /** LastChunkCount for a store with chunks, with b the first index of the
      last chunk. */
  lemma LastChunkCountFrom(cc: nat, ec: nat, k: nat, b: nat)
    requires cc > 0 && 0 < k && b == (cc - 1) * k && b + k < U32_MODULUS && b <= ec <= b + k
    ensures GetChunkLocalPosition(U64(cc - 1), ec, k) == ec - b
  {
    assert U64(cc - 1) == cc - 1 && U32(cc - 1) == cc - 1;
    assert U32(b) == b && U32(ec) == ec;
    assert U32(ec - b) == ec - b;
  }

  /** The slot of global index g: chunk g / K, position g % K. */
  function SlotOf(g: nat, k: nat): (ce: ChunkElement)
    requires k > 0
    ensures ce.chunk * k + ce.position == g && ce.position < k
  {
    ChunkElement(g / k, g % k)
  }

  /** Distinct global indices have distinct slots. */
  lemma SlotOfInjective(g: nat, h: nat, k: nat)
    requires k > 0 && g != h
    ensures SlotOf(g, k) != SlotOf(h, k)
  {
  }

  /** The slot (c, p) with p < K is the slot of c * K + p. */
  lemma SlotOfPair(c: nat, p: nat, k: nat)
    requires p < k
    ensures SlotOf(c * k + p, k) == ChunkElement(c, p)
  {
    SplitUnique(c * k + p, k, c, p);
  }

  /** A global index below the element count lies in a chunk below the
      chunk count. */
  lemma LiveChunkBelowCount(g: nat, cc: nat, ec: nat, k: nat)
    requires 0 < k && Layout(cc, ec, k) && g < ec
    ensures SlotOf(g, k).chunk < cc
  {
    ChunkBelow(g, k, cc);
  }

  /** The count Find compares a slot position with is the number of live
      slots of the last chunk; a position below it in a chunk below the
      chunk count is live in every chunk. */
  lemma LiveSlotBelowLastCount(c: nat, p: nat, cc: nat, ec: nat, k: nat)
    requires 0 < k < U32_MODULUS && Layout(cc, ec, k) && cc * k < U32_MODULUS
    requires c < cc && p < GetChunkLocalPosition(U64(cc - 1), ec, k)
    ensures p < k && c * k + p < ec
  {
    LastChunkCount(cc, ec, k);
    if c < cc - 1 {
      MulMonotone(c + 1, cc - 1, k);
      assert (c + 1) * k == c * k + k;
    }
  }

  /** GetElement's arithmetic: for a u32 index, the chunk is below the chunk
      count and the position below that chunk's element count exactly when
      the index is below the element count; the slot is the index's. */
  lemma ElementLookup(index: nat, cc: nat, ec: nat, k: nat)
    requires 0 < k < U32_MODULUS && Layout(cc, ec, k) && cc * k < U32_MODULUS
    requires index < U32_MODULUS
    ensures var c := GetChunkIndex(index, k);
            && c == SlotOf(index, k).chunk
            && GetChunkLocalPosition(c, index, k) == SlotOf(index, k).position
            && (c < cc && GetChunkLocalPosition(c, index, k) < GetChunkLocalPosition(c, ec, k)
                <==> index < ec)
  {
    SplitGlobalPosition(index, k);
    var c := index / k;
    if c < cc {
      ChunkStartBelowCount(c, cc, ec, k);
      assert U32(c * k) == c * k;
      assert GetChunkLocalPosition(c, ec, k) == ec - c * k;
    } else {
      MulMonotone(cc, c, k);
    }
  }

  /** A chunk below the chunk count starts at or below the element count. */
  lemma ChunkStartBelowCount(c: nat, cc: nat, ec: nat, k: nat)
    requires 0 < k && Layout(cc, ec, k) && c < cc
    ensures c * k <= ec && c * k < U32_MODULUS + ec
  {
    if ec > 0 {
      MulMonotone(c, cc - 1, k);
    }
  }

  /** Erase's release condition: the last element lies in the last chunk,
      and that chunk goes exactly when the element was its only one; either
      way the layout holds for one element fewer. */
  lemma EraseLayout(cc: nat, ec: nat, k: nat)
    requires 0 < k && 0 < ec < U32_MODULUS && Layout(cc, ec, k)
    ensures var (last, lastCount) := LastSlot(ec, k);
            && last == SlotOf(ec - 1, k)
            && last.chunk == cc - 1
            && (lastCount == 1 <==> (ec - 1) % k == 0)
            && (lastCount == 1 ==> Layout(cc - 1, ec - 1, k))
            && (lastCount != 1 ==> Layout(cc, ec - 1, k))
  {
    LastSlotOfLastElement(ec, k);
    var g := ec - 1;
    var c, p := g / k, g % k;
    assert c * k + p == g;
    SplitUnique(g, k, c, p);
    if c < cc - 1 {
      MulMonotone(c + 1, cc - 1, k);
    } else if c > cc - 1 {
      MulMonotone(cc, c, k);
    }
    assert c == cc - 1;
    if p == 0 && cc >= 2 {
      assert (cc - 2) * k + k == (cc - 1) * k;
    }
  }

  // ---------------------------------------------------------------------
  // Where Insert puts an element

  /** AllocateChunk's result and the chunk count after it: the index of the
      new chunk, or 0 with the count unchanged at the ceiling. */
  function AllocateChunkResult(chunkCount: nat, maxChunkCount: nat): (r: (nat, nat))
    ensures chunkCount >= maxChunkCount ==> r == (0, chunkCount)
    ensures chunkCount < maxChunkCount ==> r == (chunkCount, chunkCount + 1)
  {
    if chunkCount >= maxChunkCount then (0, chunkCount) else (chunkCount, chunkCount + 1)
  }

  /** Insert as written (hash_table.hpp:91-101): the slot written and the
      chunk count after. When every chunk is full and none can be added,
      AllocateChunk returns 0 and Insert writes slot (0, 0) all the same,
      over the live element stored there, while the element count still
      grows by one. */
  function InsertTargetAsWritten(cc: nat, ec: nat, k: nat, maxChunks: nat): (ChunkElement, nat)
    requires k > 0
  {
    var c := GetChunkIndex(ec, k);
    var p := GetChunkLocalPosition(c, ec, k);
    if GetChunkLocalPosition(U64(cc - 1), ec, k) >= k then
      var (first, count) := AllocateChunkResult(cc, maxChunks);
      (ChunkElement(first, 0), count)
    else (ChunkElement(c, p), cc)
  }

  /** Insert's target with the ceiling handled: None when a chunk is needed
      and none can be allocated. */
  function InsertTarget(cc: nat, ec: nat, k: nat, maxChunks: nat): Option<(ChunkElement, nat)>
    requires k > 0
  {
    var c := GetChunkIndex(ec, k);
    var p := GetChunkLocalPosition(c, ec, k);
    if GetChunkLocalPosition(U64(cc - 1), ec, k) >= k then
      if cc >= maxChunks then None else Some((ChunkElement(cc, 0), cc + 1))
    else Some((ChunkElement(c, p), cc))
  }

  /** The corrected Insert target: it exists exactly when the store is below
      its capacity of maxChunks * K elements; it is then slot ec % K of
      chunk ec / K, which is the old last chunk when that has room and a
      newly allocated chunk when it is full, and the layout is kept. */
  lemma InsertTargetAppends(cc: nat, ec: nat, k: nat, maxChunks: nat)
    requires 0 < k < U32_MODULUS && Layout(cc, ec, k) && cc <= maxChunks
    requires maxChunks * k < U32_MODULUS
    ensures var t := InsertTarget(cc, ec, k, maxChunks);
            && (t.Some? <==> ec < maxChunks * k)
            && (t.Some? ==>
                  var (ce, count) := t.value;
                  && ce.chunk == ec / k && ce.position == ec % k
                  && ce.chunk * k + ce.position == ec
                  && ce.chunk < count <= maxChunks
                  && count == (if ec == cc * k then cc + 1 else cc)
                  && Layout(count, ec + 1, k))
  {
    MulMonotone(cc, maxChunks, k);
    LastChunkCount(cc, ec, k);
    if ec == cc * k {
      InsertTargetWhenFull(cc, ec, k, maxChunks);
    } else {
      InsertTargetWithRoom(cc, ec, k, maxChunks);
    }
  }

  /** With every chunk full, Insert opens chunk cc at position 0 while a
      chunk is left. */
  lemma InsertTargetWhenFull(cc: nat, ec: nat, k: nat, maxChunks: nat)
    requires 0 < k < U32_MODULUS && ec == cc * k && cc <= maxChunks && maxChunks * k < U32_MODULUS
    requires GetChunkLocalPosition(U64(cc - 1), ec, k) >= k
    ensures InsertTarget(cc, ec, k, maxChunks)
            == if cc >= maxChunks then None else Some((ChunkElement(cc, 0), cc + 1))
    ensures cc < maxChunks ==> ec < maxChunks * k && ec / k == cc && ec % k == 0 && Layout(cc + 1, ec + 1, k)
    ensures cc >= maxChunks ==> ec >= maxChunks * k
  {
    if cc < maxChunks {
      MulMonotone(cc + 1, maxChunks, k);
      MulPredecessor(cc + 1, k);
      SplitUnique(ec, k, cc, 0);
    } else {
      MulMonotone(maxChunks, cc, k);
    }
  }

  /** With room in the last chunk, Insert targets slot ec % K of chunk
      ec / K. */
  lemma InsertTargetWithRoom(cc: nat, ec: nat, k: nat, maxChunks: nat)
    requires 0 < k < U32_MODULUS && Layout(cc, ec, k) && ec < cc * k < U32_MODULUS
    requires GetChunkLocalPosition(U64(cc - 1), ec, k) < k
    ensures InsertTarget(cc, ec, k, maxChunks) == Some((SlotOf(ec, k), cc))
    ensures SlotOf(ec, k).chunk < cc && Layout(cc, ec + 1, k)
  {
    SplitGlobalPosition(ec, k);
    ChunkBelow(ec, k, cc);
  }

  /** The defect: at the ceiling the code as written targets slot (0, 0),
      which holds a live element, where the corrected target is None. */
  lemma InsertAsWrittenOverwritesAtCeiling(k: nat, maxChunks: nat)
    requires 0 < k < U32_MODULUS && maxChunks > 0 && maxChunks * k < U32_MODULUS
    ensures var ec := maxChunks * k;
            && InsertTargetAsWritten(maxChunks, ec, k, maxChunks) == (ChunkElement(0, 0), maxChunks)
            && 0 * k + 0 < ec
            && InsertTarget(maxChunks, ec, k, maxChunks) == None
  {
    var ec := maxChunks * k;
    MulAtLeast(maxChunks, k);
    LastChunkCount(maxChunks, ec, k);
  }

  // ---------------------------------------------------------------------
  // Find and Erase: the scan

  /** The first slot of a chunk holding key. */
  function FirstSlot<T>(chunk: seq<Slot<T>>, key: Id): (r: Option<nat>)
    ensures r.Some? ==> r.value < |chunk| && Holds(chunk[r.value], key)
    ensures r.Some? ==> forall j :: 0 <= j < r.value ==> !Holds(chunk[j], key)
    ensures r.None? ==> forall j :: 0 <= j < |chunk| ==> !Holds(chunk[j], key)
  {
    if chunk == [] then None
    else if Holds(chunk[0], key) then Some(0)
    else match FirstSlot(chunk[1..], key)
      case None => None
      case Some(j) => Some(j + 1)
  }

  /** The nested loops of Find (hash_table.hpp:129-137) and Erase (145-149)
      as written: chunk by chunk, every one of the K slots, live or not.
      A slot past the last live element still holds whatever Erase left
      there, so the scan can report an element that is no longer stored. */
  function ScanAllSlots<T>(chunks: seq<seq<Slot<T>>>, key: Id): (r: Option<ChunkElement>)
    ensures r.Some? ==> && r.value.chunk < |chunks| && r.value.position < |chunks[r.value.chunk]|
                        && Holds(chunks[r.value.chunk][r.value.position], key)
    ensures r.Some? ==> forall c, j :: 0 <= c < |chunks| && 0 <= j < |chunks[c]|
                                       && (c < r.value.chunk || (c == r.value.chunk && j < r.value.position))
                                       ==> !Holds(chunks[c][j], key)
    ensures r.None? <==> forall c, j :: 0 <= c < |chunks| && 0 <= j < |chunks[c]| ==> !Holds(chunks[c][j], key)
  {
    if chunks == [] then None
    else match FirstSlot(chunks[0], key)
      case Some(j) => Some(ChunkElement(0, j))
      case None =>
        match ScanAllSlots(chunks[1..], key)
        case None => None
        case Some(ce) => Some(ce.(chunk := ce.chunk + 1))
  }

  /** The first index of a live element with the key, in storage order
      (chunk-major, slot-minor): what the scan is meant to find. */
  function FirstIndexOf<T>(elements: seq<Entry<T>>, key: Id): (r: Option<nat>)
    ensures r.Some? ==> r.value < |elements| && elements[r.value].id == key
    ensures r.Some? ==> forall g :: 0 <= g < r.value ==> elements[g].id != key
    ensures r.None? <==> forall g :: 0 <= g < |elements| ==> elements[g].id != key
  {
    if elements == [] then None
    else if elements[0].id == key then Some(0)
    else match FirstIndexOf(elements[1..], key)
      case None => None
      case Some(g) => Some(g + 1)
  }

  // ---------------------------------------------------------------------
  // The store as written, on values

  /** The chunk contents and counters of a cHashTable as the code as written
      leaves them. */
  datatype Store<T> = Store(chunks: seq<seq<Slot<T>>>, chunkCount: nat, elementCount: nat)

  function FreshChunk<T>(k: nat): (c: seq<Slot<T>>)
    ensures |c| == k && forall j :: 0 <= j < k ==> c[j] == Vacant
  {
    seq(k, _ => Vacant)
  }

  /** s with slot (c, p) set to v; a write outside the chunks is not
      modelled and leaves s alone. */
  function WriteSlot<T>(chunks: seq<seq<Slot<T>>>, ce: ChunkElement, v: Slot<T>): seq<seq<Slot<T>>>
  {
    if ce.chunk < |chunks| && ce.position < |chunks[ce.chunk]|
    then chunks[ce.chunk := chunks[ce.chunk][ce.position := v]]
    else chunks
  }

  function ReadSlot<T>(chunks: seq<seq<Slot<T>>>, ce: ChunkElement): Slot<T>
  {
    if ce.chunk < |chunks| && ce.position < |chunks[ce.chunk]| then chunks[ce.chunk][ce.position]
    else Vacant
  }

  /** Insert as written, on a store. A chunk it allocates is all Vacant:
      raw storage in which no object has been constructed yet. */
  function InsertAsWritten<T>(s: Store<T>, k: nat, maxChunks: nat, e: Entry<T>): Store<T>
    requires k > 0
  {
    var (ce, count) := InsertTargetAsWritten(s.chunkCount, s.elementCount, k, maxChunks);
    var chunks := if count > s.chunkCount && s.chunkCount < |s.chunks|
                  then s.chunks[s.chunkCount := FreshChunk(k)] else s.chunks;
    Store(WriteSlot(chunks, ce, Resident(e)), count, U64(s.elementCount + 1))
  }

  /** The last element's slot and the count of the last chunk, as Erase
      computes them (GetChunkIndex(_elementCount - 1), then
      GetChunkLocalPosition(that chunk, _elementCount), less one for the
      slot). */
  function LastSlot(ec: nat, k: nat): (r: (ChunkElement, nat))
    requires k > 0
  {
    var lastChunk := GetChunkIndex(U64(ec - 1), k);
    var lastCount := GetChunkLocalPosition(lastChunk, ec, k);
    (ChunkElement(lastChunk, U32(lastCount - 1)), lastCount)
  }

  /** In a non-empty store the last element, index ec - 1, sits in slot
      (ec - 1) % K of chunk (ec - 1) / K, and the last chunk holds
      (ec - 1) % K + 1 elements. */
  lemma LastSlotOfLastElement(ec: nat, k: nat)
    requires 0 < k && 0 < ec < U32_MODULUS
    ensures var (last, lastCount) := LastSlot(ec, k);
            && last.chunk == (ec - 1) / k && last.position == (ec - 1) % k
            && last.chunk * k + last.position == ec - 1
            && lastCount == last.position + 1 <= k
  {
    var g := ec - 1;
    SplitGlobalPosition(g, k);
    var c := g / k;
    assert GetChunkIndex(U64(ec - 1), k) == c;
    assert U32(c * k) == c * k;
    assert GetChunkLocalPosition(c, ec, k) == g % k + 1;
  }

  /** Erase as written once the scan has found slot ce: the last element is
      copied there, and the last chunk goes when it held one element.
      DeallocateChunk is taken to decrement the chunk count, as the source
      evidently intends. */
  function EraseAt<T>(s: Store<T>, k: nat, ce: ChunkElement): Store<T>
    requires k > 0
  {
    var (last, lastCount) := LastSlot(s.elementCount, k);
    var count := if lastCount == 1 && last.chunk < s.chunkCount then s.chunkCount - 1 else s.chunkCount;
    Store(WriteSlot(s.chunks, ce, ReadSlot(s.chunks, last)), count, U64(s.elementCount - 1))
  }

  /** Erase as written, on a store: the scan over every slot of the first
      chunkCount chunks, then EraseAt. */
  function EraseAsWritten<T>(s: Store<T>, k: nat, key: Id): Store<T>
    requires k > 0
  {
    var live := if s.chunkCount <= |s.chunks| then s.chunks[..s.chunkCount] else s.chunks;
    match ScanAllSlots(live, key)
    case None => s
    case Some(ce) => EraseAt(s, k, ce)
  }

  /** Below the ceiling the code as written and the corrected code pick the
      same slot and chunk count. */
  lemma InsertAsWrittenBelowCeiling(cc: nat, ec: nat, k: nat, maxChunks: nat)
    requires k > 0
    requires InsertTarget(cc, ec, k, maxChunks).Some?
    ensures InsertTargetAsWritten(cc, ec, k, maxChunks) == InsertTarget(cc, ec, k, maxChunks).value
  {
  }

  /** The defect in Find and Erase as written: with two slots per chunk and
      one chunk at most, insert a, insert b, erase b. The store then holds
      one element, a, and the scan still finds b in the dead slot (0, 1);
      erasing b a second time copies a over that slot and releases the
      chunk, so a is gone and no element or chunk is left. */
  lemma ScanFindsErasedElement<T>(a: Entry<T>, b: Entry<T>)
    requires a.id != b.id
    ensures var s0 := Store([[Vacant, Vacant]], 1, 0);
            var s2 := InsertAsWritten(InsertAsWritten(s0, 2, 1, a), 2, 1, b);
            var s3 := EraseAsWritten(s2, 2, b.id);
            var s4 := EraseAsWritten(s3, 2, b.id);
            && s3 == Store([[Resident(a), Resident(b)]], 1, 1)
            && FirstIndexOf([a], b.id) == None
            && ScanAllSlots(s3.chunks[..s3.chunkCount], b.id) == Some(ChunkElement(0, 1))
            && s4 == Store([[Resident(a), Resident(a)]], 0, 0)
  {
    FirstInsert(a);
    SecondInsert(a, b);
    FirstErase(a, b);
    SecondErase(a, b);
    PairScan(a, b);
    ScanOfPair(a, b);
  }

  lemma FirstInsert<T>(a: Entry<T>)
    ensures InsertAsWritten(Store([[Vacant, Vacant]], 1, 0), 2, 1, a)
            == Store([[Resident(a), Vacant]], 1, 1)
  {
    FirstInsertWrite(a);
    FirstInsertTarget();
    U64Small();
  }

  lemma FirstInsertWrite<T>(a: Entry<T>)
    ensures WriteSlot([[Vacant, Vacant]], ChunkElement(0, 0), Resident(a)) == [[Resident(a), Vacant]]
  {
    var row: seq<Slot<T>> := [Vacant, Vacant];
    assert row[0 := Resident(a)] == [Resident(a), Vacant];
  }

  lemma FirstInsertTarget()
    ensures InsertTargetAsWritten(1, 0, 2, 1) == (ChunkElement(0, 0), 1)
  {
    assert GetChunkIndex(0, 2) == 0;
    assert GetChunkLocalPosition(0, 0, 2) == 0;
    assert GetChunkLocalPosition(U64(1 - 1), 0, 2) == 0;
  }

  lemma SecondInsert<T>(a: Entry<T>, b: Entry<T>)
    ensures InsertAsWritten(Store([[Resident(a), Vacant]], 1, 1), 2, 1, b)
            == Store([[Resident(a), Resident(b)]], 1, 2)
  {
    SecondInsertWrite(a, b);
    SecondInsertTarget();
    U64Small();
  }

  lemma SecondInsertWrite<T>(a: Entry<T>, b: Entry<T>)
    ensures WriteSlot([[Resident(a), Vacant]], ChunkElement(0, 1), Resident(b))
            == [[Resident(a), Resident(b)]]
  {
    var row: seq<Slot<T>> := [Resident(a), Vacant];
    assert row[1 := Resident(b)] == [Resident(a), Resident(b)];
  }

  lemma SecondInsertTarget()
    ensures InsertTargetAsWritten(1, 1, 2, 1) == (ChunkElement(0, 1), 1)
  {
    assert GetChunkIndex(1, 2) == 0;
    assert GetChunkLocalPosition(0, 1, 2) == 1;
    assert GetChunkLocalPosition(U64(1 - 1), 1, 2) == 1;
  }

  /** Erasing b, the last element: it is copied onto itself. */
  lemma FirstErase<T>(a: Entry<T>, b: Entry<T>)
    requires a.id != b.id
    ensures EraseAsWritten(Store([[Resident(a), Resident(b)]], 1, 2), 2, b.id)
            == Store([[Resident(a), Resident(b)]], 1, 1)
  {
    PairScan(a, b);
    FirstEraseAt(a, b);
  }

  lemma FirstEraseAt<T>(a: Entry<T>, b: Entry<T>)
    ensures EraseAt(Store([[Resident(a), Resident(b)]], 1, 2), 2, ChunkElement(0, 1))
            == Store([[Resident(a), Resident(b)]], 1, 1)
  {
    FirstEraseLast();
    FirstEraseWrite(a, b);
    U64Small();
  }

  lemma U64Small()
    ensures U64(0 + 1) == 1 && U64(1 + 1) == 2 && U64(2 - 1) == 1 && U64(1 - 1) == 0
  {
  }

  lemma FirstEraseWrite<T>(a: Entry<T>, b: Entry<T>)
    ensures var chunks := [[Resident(a), Resident(b)]];
            WriteSlot(chunks, ChunkElement(0, 1), ReadSlot(chunks, ChunkElement(0, 1))) == chunks
  {
    var row := [Resident(a), Resident(b)];
    assert row[1 := Resident(b)] == row;
  }

  lemma FirstEraseLast()
    ensures LastSlot(2, 2) == (ChunkElement(0, 1), 2)
  {
    assert U64(2 - 1) == 1;
    assert GetChunkIndex(1, 2) == 0;
    assert U32(2) == 2;
    assert GetChunkLocalPosition(0, 2, 2) == 2;
    assert U32(2 - 1) == 1;
  }

  /** Erasing b again: the scan finds its stale copy, and a, the only live
      element, is copied over it and then counted out. */
  lemma SecondErase<T>(a: Entry<T>, b: Entry<T>)
    requires a.id != b.id
    ensures EraseAsWritten(Store([[Resident(a), Resident(b)]], 1, 1), 2, b.id)
            == Store([[Resident(a), Resident(a)]], 0, 0)
  {
    PairScan(a, b);
    SecondEraseAt(a, b);
  }

  lemma SecondEraseAt<T>(a: Entry<T>, b: Entry<T>)
    ensures EraseAt(Store([[Resident(a), Resident(b)]], 1, 1), 2, ChunkElement(0, 1))
            == Store([[Resident(a), Resident(a)]], 0, 0)
  {
    SecondEraseLast();
    SecondEraseWrite(a, b);
    U64Small();
  }

  lemma SecondEraseWrite<T>(a: Entry<T>, b: Entry<T>)
    ensures var chunks := [[Resident(a), Resident(b)]];
            WriteSlot(chunks, ChunkElement(0, 1), ReadSlot(chunks, ChunkElement(0, 0)))
            == [[Resident(a), Resident(a)]]
  {
    var row := [Resident(a), Resident(b)];
    assert row[1 := Resident(a)] == [Resident(a), Resident(a)];
  }

  lemma SecondEraseLast()
    ensures LastSlot(1, 2) == (ChunkElement(0, 0), 1)
  {
    assert U64(1 - 1) == 0;
    assert GetChunkIndex(0, 2) == 0;
    assert GetChunkLocalPosition(0, 1, 2) == 1;
    assert U32(1 - 1) == 0;
  }

  /** The scan over the one chunk of the store holding a and b. */
  lemma PairScan<T>(a: Entry<T>, b: Entry<T>)
    requires a.id != b.id
    ensures var chunks := [[Resident(a), Resident(b)]];
            chunks[..1] == chunks && ScanAllSlots(chunks[..1], b.id) == Some(ChunkElement(0, 1))
  {
    var chunks := [[Resident(a), Resident(b)]];
    assert chunks[..1] == chunks;
    ScanOfPair(a, b);
  }

  lemma ScanOfPair<T>(a: Entry<T>, b: Entry<T>)
    requires a.id != b.id
    ensures ScanAllSlots([[Resident(a), Resident(b)]], b.id) == Some(ChunkElement(0, 1))
    ensures FirstIndexOf([a], b.id) == None
  {
    var chunk := [Resident(a), Resident(b)];
    assert chunk[1..] == [Resident(b)];
    assert FirstSlot(chunk, b.id) == Some(1);
  }

  // ---------------------------------------------------------------------
  // The hash mask

  /** The number of leading zero bits of x as a width-bit value. */
  function LeadingZeros(x: nat, width: nat): (n: nat)
    requires x < Pow2(width)
    ensures n <= width
    ensures x == 0 ==> n == width
    ensures x > 0 ==> n < width && Pow2(width - 1 - n) <= x < Pow2(width - n)
    decreases width
  {
    if width == 0 then 0
    else if x >= Pow2(width - 1) then 0
    else 1 + LeadingZeros(x, width - 1)
  }

  /** __lzcnt: the leading zero bits of a u32 value. */
  function Lzcnt32(x: nat): (n: nat)
    requires x < U32_MODULUS
    ensures n <= 32 && (x == 0 <==> n == 32)
    ensures x > 0 ==> Pow2(31 - n) <= x < 2 * Pow2(31 - n)
  {
    Pow2Is32();
    LeadingZeros(x, 32)
  }

  /** MakeHashMask(size): (1 << (31 - __lzcnt(u32(size)))) - 1. The shift
      is on a signed int, defined only for a shift below 31, and __lzcnt(0)
      is 32, so the u32 size must lie in 1 .. 2^31 - 1. The mask plus one is
      2^floor(log2 size). */
  function MakeHashMask(size: nat): (mask: nat)
    requires 0 < U32(size) < 0x8000_0000
    ensures mask + 1 == Pow2(Log2Floor(U32(size)))
  {
    LowMask(U32(size))
  }

  /** (1 << (31 - __lzcnt(x))) - 1 for a u32 value x. */
  function LowMask(x: nat): (mask: nat)
    requires 0 < x < 0x8000_0000
    ensures mask + 1 == Pow2(Log2Floor(x))
  {
    var count := Lzcnt32(x);
    LeadingZerosIsLog2(x, count);
    Pow2(31 - count) - 1
  }

  /** For 0 < x < 2^31, 31 - __lzcnt(x) is floor(log2 x). */
  lemma LeadingZerosIsLog2(x: nat, count: nat)
    requires 0 < x < 0x8000_0000
    requires count == Lzcnt32(x)
    ensures 1 <= count <= 31 && Log2Floor(x) == 31 - count
  {
    Pow2Is32();
    Log2FloorUnique(x, 31 - count);
  }

  /** The mask plus one is a power of two, the largest not above the size:
      the mask keeps exactly the bits that index a bucket below the size. */
  lemma MakeHashMaskIsLargestPowerOfTwo(size: nat)
    requires 0 < U32(size) < 0x8000_0000
    ensures IsPowerOfTwo(MakeHashMask(size) + 1)
    ensures MakeHashMask(size) + 1 <= U32(size) < 2 * (MakeHashMask(size) + 1)
  {
    var k := Log2Floor(U32(size));
    Pow2IsPowerOfTwo(k);
  }

  /** For a power-of-two size 2^k the mask is 2^k - 1. */
  lemma MakeHashMaskOfPowerOfTwo(k: nat)
    requires k < 31
    ensures Pow2(k) < 0x8000_0000
    ensures MakeHashMask(Pow2(k)) == Pow2(k) - 1
  {
    Pow2Is32();
    Pow2StrictlyMonotone(k, 31);
    Log2FloorUnique(Pow2(k), k);
  }

  /** A hash masked with MakeHashMask(size) is a bucket index below size. */
  lemma MaskedBelowSize(h: nat, size: nat)
    requires 0 < U32(size) < 0x8000_0000
    ensures BitAnd(h, MakeHashMask(size)) < U32(size)
  {
    var k := Log2Floor(U32(size));
    var p := Pow2(k);
    BitAndLowMask(h, k);
    assert MakeHashMask(size) == p - 1;
    assert BitAnd(h, p - 1) == h % p < p <= U32(size);
  }
}
