/** cFactory<T> (engine/src/factory.hpp): creation and destruction of engine
    objects of one class T through the memory allocator, stamping each new
    object with a generated identifier.

    The allocator the factory calls (cMemoryAllocator::Allocate(size,
    alignment) and Deallocate) is represented by the memory pool model; the
    alignment the factory passes is the pool's own. Construction of T is the
    writing of a value of T into the new block.

    The file does not compile as it stands: Create calls
    `cIdentifier::GenerateIdentifier`, while cIdentifier declares only a
    static `Generate` that returns an identifier by value, and assigns the
    result to the pointer field `_identifier`. The model takes the evident
    intent: the new object stores the identifier Generate returns. */
module Factory {
  import opened Base
  import opened Identity
  import opened MemoryPool

  /** K_USIZE_MAX (engine/src/types.hpp): SIZE_MAX of a 64-bit build. */
  const USIZE_MAX: nat := U64_MODULUS - 1

  /** An object the factory made: where it lives, iObject's bookkeeping
      fields, and the constructed T. */
  datatype Made<T> = Made(address: nat, header: ObjectHeader, value: T)

  /** TRITON_OBJECT(X): the class's static type name is the literal "X". */
  datatype ClassInfo = ClassInfo(literalName: string)

  /** GetTypeStatic. */
  function GetTypeStatic(c: ClassInfo): string
  {
    c.literalName
  }

  /** GetType returns the static type name: every object of a class reports
      the name its TRITON_OBJECT line spells. */
  function GetType(c: ClassInfo): (name: string)
    ensures name == c.literalName
  {
    GetTypeStatic(c)
  }

  class Factory<T> {
    const classInfo: ClassInfo
    /** sizeof(T). */
    const objectByteSize: nat
    const allocator: MemoryPool
    const identifiers: IdentifierRegistry
    /** `_counter`: never changed by Create or Destroy. */
    var counter: nat

    ghost predicate Valid()
      reads this, allocator, identifiers
    {
      allocator.Valid() && identifiers.Valid() && counter < U64_MODULUS
    }

    constructor (classInfo: ClassInfo, objectByteSize: nat,
                 allocator: MemoryPool, identifiers: IdentifierRegistry)
      requires allocator.Valid() && identifiers.Valid()
      ensures Valid() && counter == 0
      ensures this.classInfo == classInfo && this.objectByteSize == objectByteSize
      ensures this.allocator == allocator && this.identifiers == identifiers
    {
      this.classInfo := classInfo;
      this.objectByteSize := objectByteSize;
      this.allocator := allocator;
      this.identifiers := identifiers;
      counter := 0;
    }

    /** Create(args): None, allocating nothing, once the counter has reached
        K_USIZE_MAX; otherwise a block of sizeof(T) bytes holding the value,
        whose identifier is generated from the class's type name. The source
        does not test the allocator's result; the model fails then too, and
        generates no identifier. */
    method Create(value: T) returns (made: Option<Made<T>>)
      requires Valid()
      modifies allocator, identifiers
      ensures Valid()
      ensures counter == old(counter)
      ensures old(counter) >= USIZE_MAX ==>
        made == None && allocator.allocs == old(allocator.allocs)
        && identifiers.counter == old(identifiers.counter)
      ensures made.None? ==> identifiers.counter == old(identifiers.counter)
                             && allocator.allocs == old(allocator.allocs)
      ensures made.Some? ==>
        && made.value.value == value
        && made.value.header.identifier == Some(MakeId(GetTypeStatic(classInfo), old(identifiers.counter)))
        && identifiers.counter == U64(old(identifiers.counter) + 1)
        && made.value.address % allocator.alignment == 0
        && |allocator.allocs| == |old(allocator.allocs)| + 1
        && allocator.allocs[..|old(allocator.allocs)|] == old(allocator.allocs)
        && allocator.allocs[|allocator.allocs| - 1].address == made.value.address
        && allocator.allocs[|allocator.allocs| - 1].occupiedByteSize == objectByteSize
        && allocator.allocs[|allocator.allocs| - 1].Live()
    {
      if counter >= USIZE_MAX {
        return None;
      }
      var address := allocator.Allocate(objectByteSize);
      if address.None? {
        return None;
      }
      var id := identifiers.Generate(GetTypeStatic(classInfo));
      var header := FreshObjectHeader().(identifier := Some(id));
      made := Some(Made(address.value, header, value));
    }

    /** Destroy(object): ends the object's life and releases exactly its
        block; nothing else changes. */
    method Destroy(target: Made<T>)
      requires Valid()
      modifies allocator
      ensures Valid()
      ensures counter == old(counter)
      ensures old(allocator.Holds(target.address)) ==>
        allocator.allocs == FreedAt(old(allocator.allocs),
                                    FirstLive(old(allocator.allocs), target.address).value)
      ensures !old(allocator.Holds(target.address)) ==> allocator.allocs == old(allocator.allocs)
    {
      var _ := allocator.Free(target.address);
    }
  }
}
