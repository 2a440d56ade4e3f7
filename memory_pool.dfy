/** The memory arena's bookkeeping (engine/src/memory_pool.hpp).

    Only the header of cMemoryPool is part of this model, so Allocate and
    Free are given an abstract contract: Allocate hands out an aligned,
    in-bounds block that overlaps no other record, or fails; Free releases
    the first live record at an address and reports whether there was one.
    The bodies that meet the contract are a bump allocator: each block is
    taken at the end of the used region (`_lastAddress`), and a freed
    record is flagged but its bytes are not handed out again. Addresses are
    offsets from the start of the arena (`_memory`). */
module MemoryPool {
  import opened Base

  /** sMemoryPoolAllocation: free flag (u8), reserved size (u32), requested
      size (u32) and start address. */
  datatype Allocation = Allocation(freeFlag: byte, allocationByteSize: nat,
                                   occupiedByteSize: nat, address: nat)
  {
    predicate Live() { freeFlag == 0 }
    function End(): nat { address + allocationByteSize }
  }

  /** The bytes reserved by the records not yet freed. */
  function LiveBytes(records: seq<Allocation>): nat
  {
    if records == [] then 0
    else
      var last := records[|records| - 1];
      LiveBytes(records[..|records| - 1]) + (if last.Live() then last.allocationByteSize else 0)
  }

  /** The bytes reserved by all records, freed or not. */
  function ReservedBytes(records: seq<Allocation>): nat
  {
    if records == [] then 0
    else ReservedBytes(records[..|records| - 1]) + records[|records| - 1].allocationByteSize
  }

  /** The index of the first live record whose block starts at address. */
  function FirstLive(records: seq<Allocation>, address: nat): (r: Option<nat>)
    ensures r.Some? ==> r.value < |records| && records[r.value].Live()
                        && records[r.value].address == address
    ensures r.Some? ==> forall j :: 0 <= j < r.value ==>
                          !(records[j].Live() && records[j].address == address)
    ensures r.None? ==> forall j :: 0 <= j < |records| ==>
                          !(records[j].Live() && records[j].address == address)
  {
    if records == [] then None
    else if records[0].Live() && records[0].address == address then Some(0)
    else match FirstLive(records[1..], address)
      case None => None
      case Some(i) => Some(i + 1)
  }

  /** The records after the one at index i is freed. */
  function FreedAt(records: seq<Allocation>, i: nat): (r: seq<Allocation>)
    requires i < |records|
    ensures |r| == |records| && !r[i].Live()
    ensures r[i].allocationByteSize == records[i].allocationByteSize
    ensures r[i].address == records[i].address
    ensures forall j :: 0 <= j < |records| && j != i ==> r[j] == records[j]
  {
    records[i := records[i].(freeFlag := 1)]
  }

  /** Freeing a live record lowers the live byte count by exactly its
      reserved size. */
  lemma {:induction false} LiveBytesAfterFree(records: seq<Allocation>, i: nat)
    requires i < |records| && records[i].Live()
    ensures LiveBytes(records) >= records[i].allocationByteSize
    ensures LiveBytes(FreedAt(records, i)) == LiveBytes(records) - records[i].allocationByteSize
    decreases |records|
  {
    var n := |records| - 1;
    var freed := FreedAt(records, i);
    if i < n {
      assert freed[..n] == FreedAt(records[..n], i);
      LiveBytesAfterFree(records[..n], i);
    } else {
      assert freed[..n] == records[..n];
    }
  }

  /** Freeing leaves the reserved byte count alone. */
  lemma {:induction false} ReservedBytesAfterFree(records: seq<Allocation>, i: nat)
    requires i < |records|
    ensures ReservedBytes(FreedAt(records, i)) == ReservedBytes(records)
    decreases |records|
  {
    var n := |records| - 1;
    var freed := FreedAt(records, i);
    if i < n {
      assert freed[..n] == FreedAt(records[..n], i);
      ReservedBytesAfterFree(records[..n], i);
    } else {
      assert freed[..n] == records[..n];
    }
  }

  /** The live bytes never exceed the reserved bytes. */
  lemma {:induction false} LiveWithinReserved(records: seq<Allocation>)
    ensures LiveBytes(records) <= ReservedBytes(records)
    decreases |records|
  {
    if records != [] {
      LiveWithinReserved(records[..|records| - 1]);
    }
  }

  /** n rounded up to the next multiple of alignment. */
  function AlignUp(n: nat, alignment: nat): (r: nat)
    requires alignment > 0
    ensures r % alignment == 0
    ensures n <= r < n + alignment
  {
    if n % alignment == 0 then n
    else
      var up := (n / alignment + 1) * alignment;
      DivModUnique(up, alignment, n / alignment + 1, 0);
      up
  }

  lemma SumOfMultiples(x: nat, y: nat, d: nat)
    requires d > 0 && x % d == 0 && y % d == 0
    ensures (x + y) % d == 0
  {
    assert x == (x / d) * d && y == (y / d) * d;
    assert x + y == (x / d + y / d) * d;
    DivModUnique(x + y, d, x / d + y / d, 0);
  }

  /** Every record is a non-empty aligned block inside the used region
      whose requested size fits its reserved size, a u32. */
  predicate RecordsFit(records: seq<Allocation>, alignment: nat, end: nat)
    requires alignment > 0
  {
    forall i :: 0 <= i < |records| ==>
      && records[i].address % alignment == 0
      && 0 < records[i].allocationByteSize < U32_MODULUS
      && records[i].occupiedByteSize <= records[i].allocationByteSize
      && records[i].End() <= end
  }

  /** Records follow each other in address order without overlapping. */
  predicate Disjoint(records: seq<Allocation>)
  {
    forall i, j :: 0 <= i < j < |records| ==> records[i].End() <= records[j].address
  }

  /** Non-empty disjoint blocks start at strictly increasing addresses, so
      no two records share an address. */
  lemma DistinctAddresses(records: seq<Allocation>, alignment: nat, end: nat)
    requires alignment > 0
    requires RecordsFit(records, alignment, end) && Disjoint(records)
    ensures forall i, j :: 0 <= i < j < |records| ==> records[i].address < records[j].address
  {
    forall i, j | 0 <= i < j < |records|
      ensures records[i].address < records[j].address
    {
      assert records[i].address < records[i].End() <= records[j].address;
    }
  }

  /** Once the live record at an address is freed, no live record starts
      there: a second Free of the address finds nothing. */
  lemma FreedAddressNotLive(records: seq<Allocation>, address: nat, alignment: nat, end: nat)
    requires alignment > 0
    requires RecordsFit(records, alignment, end) && Disjoint(records)
    requires FirstLive(records, address).Some?
    ensures FirstLive(FreedAt(records, FirstLive(records, address).value), address).None?
  {
    var i := FirstLive(records, address).value;
    var r := FreedAt(records, i);
    DistinctAddresses(records, alignment, end);
    assert forall j :: 0 <= j < |r| ==> !(r[j].Live() && r[j].address == address) by {
      forall j | 0 <= j < |r|
        ensures !(r[j].Live() && r[j].address == address)
      {
        if j < i {
          assert records[j].address < records[i].address;
        } else if j > i {
          assert records[i].address < records[j].address;
        }
      }
    }
  }

  /** Freeing a record keeps every block where it was. */
  lemma FreedAtKeepsBlocks(records: seq<Allocation>, i: nat, alignment: nat, end: nat)
    requires i < |records| && alignment > 0
    requires RecordsFit(records, alignment, end) && Disjoint(records)
    ensures RecordsFit(FreedAt(records, i), alignment, end) && Disjoint(FreedAt(records, i))
  {
    var r := FreedAt(records, i);
    assert forall j :: 0 <= j < |r| ==>
      (r[j].address == records[j].address
       && r[j].allocationByteSize == records[j].allocationByteSize
       && r[j].occupiedByteSize == records[j].occupiedByteSize);
  }

  /** The pool as a handle owner; `New` gives objects a reference to it. */
  datatype PoolObject = PoolObject(address: nat, pool: MemoryPool)

  class MemoryPool {
    const byteSize: nat
    const maxAllocs: nat
    const alignment: nat
    /** The end of the used region, as an offset (`_lastAddress`). */
    var lastAddress: nat
    var allocs: seq<Allocation>
    var bytesOccupied: nat
    var bytesFreed: nat
    var lastFreedBytes: nat

    /** The abstract pool invariant, then what the bump layout adds to it.
        Reading the constructor's `allocs` argument as a cap on the number
        of records is a model choice; the header does not say how it is
        used. */
    ghost predicate Valid()
      reads this
    {
      && byteSize < U64_MODULUS && alignment > 0
      && |allocs| <= maxAllocs
      && bytesFreed <= bytesOccupied
      && bytesOccupied - bytesFreed == LiveBytes(allocs)
      && RecordsFit(allocs, alignment, lastAddress)
      && Disjoint(allocs)
      && lastAddress <= byteSize && lastAddress % alignment == 0
      && bytesOccupied == ReservedBytes(allocs) <= lastAddress
    }

    /** Whether address starts a live block (FirstLive finds one exactly
        when some live record starts there). */
    ghost predicate Holds(address: nat)
      reads this
    {
      FirstLive(allocs, address).Some?
    }

    /** cMemoryPool(byteSize, allocs, alignment): an empty arena. */
    constructor (byteSize: nat, maxAllocs: nat, alignment: nat)
      requires byteSize < U64_MODULUS && alignment > 0
      ensures Valid()
      ensures this.byteSize == byteSize && this.maxAllocs == maxAllocs
      ensures this.alignment == alignment
      ensures allocs == [] && bytesOccupied == 0 && bytesFreed == 0 && lastFreedBytes == 0
    {
      this.byteSize := byteSize;
      this.maxAllocs := maxAllocs;
      this.alignment := alignment;
      lastAddress := 0;
      allocs := [];
      bytesOccupied := 0;
      bytesFreed := 0;
      lastFreedBytes := 0;
    }

    /** GetAllocCount: the number of allocation records. */
    function GetAllocCount(): (n: nat)
      reads this
      ensures n == |allocs|
    {
      |allocs|
    }

    /** GetByteSize: the capacity fixed at construction. */
    function GetByteSize(): (n: nat)
      reads this
      ensures n == byteSize
    {
      byteSize
    }

    /** GetBytesUsed: the bytes reserved by the live records. */
    function GetBytesUsed(): (n: nat)
      reads this
      requires Valid()
      ensures n == LiveBytes(allocs)
      ensures n <= byteSize
    {
      LiveWithinReserved(allocs);
      bytesOccupied - bytesFreed
    }

    /** GetLastFreedBytes: the reserved size of the block freed last. */
    function GetLastFreedBytes(): (n: nat)
      reads this
    {
      lastFreedBytes
    }

    /** Allocate(size): an aligned block of at least size bytes that overlaps
        no record, or None; a failed call changes nothing. Failing a request
        for 0 bytes, and failing once the record cap is reached, are model
        choices that the header does not fix. */
    method Allocate(size: nat) returns (address: Option<nat>)
      requires Valid()
      modifies this
      ensures Valid()
      ensures size == 0 ==> address.None?
      ensures address.None? ==> allocs == old(allocs) && bytesOccupied == old(bytesOccupied)
                                && lastAddress == old(lastAddress)
      ensures address.Some? ==>
        && address.value % alignment == 0
        && |allocs| == |old(allocs)| + 1
        && allocs[..|old(allocs)|] == old(allocs)
        && var a := allocs[|allocs| - 1];
           a.Live() && a.address == address.value && a.occupiedByteSize == size
           && size <= a.allocationByteSize && a.End() <= byteSize
           && bytesOccupied == old(bytesOccupied) + a.allocationByteSize
      ensures bytesFreed == old(bytesFreed) && lastFreedBytes == old(lastFreedBytes)
    {
      var reserved := AlignUp(size, alignment);
      if size == 0 || |allocs| == maxAllocs || reserved >= U32_MODULUS || lastAddress + reserved > byteSize {
        return None;
      }
      var record := Allocation(0, reserved, size, lastAddress);
      SumOfMultiples(lastAddress, reserved, alignment);
      assert (allocs + [record])[..|allocs|] == allocs;
      allocs := allocs + [record];
      address := Some(lastAddress);
      lastAddress := lastAddress + reserved;
      bytesOccupied := bytesOccupied + reserved;
    }

    /** Free(address): releases the first live record at address and returns
        true, or returns false and changes nothing when there is none. */
    method Free(address: nat) returns (ok: bool)
      requires Valid()
      modifies this
      ensures Valid()
      ensures ok == old(Holds(address))
      ensures !Holds(address)
      ensures ok ==> var i := FirstLive(old(allocs), address).value;
                     && allocs == FreedAt(old(allocs), i)
                     && lastFreedBytes == old(allocs)[i].allocationByteSize
                     && bytesFreed == old(bytesFreed) + lastFreedBytes
      ensures !ok ==> allocs == old(allocs) && bytesFreed == old(bytesFreed)
                      && lastFreedBytes == old(lastFreedBytes)
      ensures bytesOccupied == old(bytesOccupied) && lastAddress == old(lastAddress)
    {
      match FirstLive(allocs, address)
      case None =>
        ok := false;
      case Some(i) =>
        var freedBytes := allocs[i].allocationByteSize;
        LiveBytesAfterFree(allocs, i);
        ReservedBytesAfterFree(allocs, i);
        FreedAtKeepsBlocks(allocs, i, alignment, lastAddress);
        FreedAddressNotLive(allocs, address, alignment, lastAddress);
        allocs := FreedAt(allocs, i);
        bytesFreed := bytesFreed + freedBytes;
        lastFreedBytes := freedBytes;
        ok := true;
    }

    /** New<T>(size): a block of objectByteSize bytes (sizeof(T)) whatever
        size says, holding an object constructed with this pool. */
    method New(size: nat, objByteSize: nat) returns (obj: Option<PoolObject>)
      requires Valid()
      modifies this
      ensures Valid()
      ensures objByteSize == 0 ==> obj.None?
      ensures obj.Some? ==>
        && obj.value.pool == this
        && obj.value.address % alignment == 0
        && |allocs| == |old(allocs)| + 1
        && allocs[..|old(allocs)|] == old(allocs)
        && allocs[|allocs| - 1].Live()
        && allocs[|allocs| - 1].address == obj.value.address
        && allocs[|allocs| - 1].occupiedByteSize == objByteSize
      ensures obj.None? ==> allocs == old(allocs)
    {
      var address := Allocate(objByteSize);
      match address
      case None =>
        obj := None;
      case Some(a) =>
        obj := Some(PoolObject(a, this));
    }
  }
}
