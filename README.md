# TritonEngine core, modelled in Dafny

This project models the storage and bookkeeping core of the TritonEngine
C++ game engine (`engine/src`), together with the small text and data
transformations the engine's subsystems perform. It then proves properties
of that model. Each source component becomes one Dafny module:

- **Base** (`base.dfy`) holds the shared vocabulary: `Option` and
  `Result`, the `byte` type (u8, a `newtype` over 0..255 rather than
  `bv8`, so that the byte arithmetic of the WAV header and the hash is
  integer arithmetic), explicit u32/u64/s32 wrap-around, powers
  of two, bitwise AND/XOR on naturals, `std::to_string` (`Decimal`) and
  `strlen` (`CStringLength`).
- **Identity** (`identity.dfy`) is `cIdentifier`. An identifier is 32
  bytes: a seed, then the decimal value of a process-wide counter, then
  zero padding. A default identifier is all zero (`DEFAULT_ID`), and two
  identifiers are equal when all 32 bytes are. The counter is a class
  that `Generate` advances. The module also gives the header fields every
  `iObject` carries.
- **ByteHash** (`byte_hash.dfy`) is `cMath::Hash` on a 64-bit build. It is
  a loop proved equal to a recursive definition.
- **ChunkLayout** and **HashTable** (`chunk_layout.dfy`, `hash_table.dfy`)
  are `cHashTable<T>`, a chunked object store with a one-entry hash bucket
  per identifier. ChunkLayout has the index arithmetic:
  - chunk and slot of a global position;
  - the object count of the last chunk;
  - where Insert writes;
  - the hash mask.

  It also has the code of Insert, Find and Erase as written, on values.
  HashTable is the class. Its chunks are the rows of an `array2`, its bucket
  table is an `array`, and a ghost sequence of elements is its abstract
  contents. `Insert`, `Find`, `Erase` and `GetElement` are proved against
  that sequence.
- **MemoryPool** (`memory_pool.dfy`) is `cMemoryPool`: a bump allocator
  with a record per allocation and the byte counters that `GetBytesUsed`
  reports.
- **Factory** (`factory.dfy`) is `cFactory<T>`: a class that allocates an
  object, gives it a fresh identifier, and frees it again.
- **Events** (`event_manager.dfy`) is `cEventDispatcher`: a map from event
  type to handler list, with Subscribe, Unsubscribe and Send.
- **ShaderText** (`shader_text.dfy`) holds the text processing of the
  OpenGL render context:
  - `CleanShaderSource`;
  - the `#define` block of `DefineInShader`;
  - the version header of shaders built from files;
  - the first-match replacements of shaders derived from a base shader;
  - the define pairs of a render pass.
- **FontAtlas** (`font_atlas.dfy`) covers several parts of the font manager:
  - how the glyph atlas is sized;
  - rounding to a power of two;
  - the blit of glyph bitmaps into the atlas;
  - `GetCharacterCount` and `GetNewlineCount`.
- **Wav** (`wav.dfy`) is `LoadWAVFile`. It is a byte-level reader of a
  44-byte RIFF/WAVE header over a file's contents. It also reads the
  16-bit sample data, and covers how `cOpenALSoundContext::Create` picks
  the OpenAL format.

Machine integers are unbounded in Dafny. The model writes each wrap-around
out where the source depends on it:
- the u64 counter;
- the u32 chunk indices;
- the u32-to-`int` conversion of `NumSamples` and the conversion of `_dataByteSize` to u32 in the WAV loader (the `int` product before that conversion is a separate case, listed under "## Left out");
- the u64 hash rounds.

The build modelled is the 64-bit one (`usize` and `cpuword` are u64).

Several source files do not compile as they stand. The model follows the
evident intent, and each module comment lists where:
- `byteSize` in `cMath::Hash` is the parameter `dataByteSize`;
- in `cHashTable<T>`, the descriptor fields, `AllocateNewChunk`, Erase's
  `.id`, GetElement's `info.chunk` and the `return` in a `void`
  DeallocateChunk;
- Insert's `_context->Create<T>(chunk, idx, args...)` (`hash_table.hpp:104`),
  where `cContext` declares only a parameterless `Create` (`context.hpp:18-19`):
  the element, object and identifier, is Insert's input;
- the `const std::string& key` of Find and Erase (`hash_table.hpp:34-35`),
  which is hashed by a `cMath::Hash` that takes a byte pointer and a length
  and is compared with the `std::array<u8, 32>` that `GetID()` returns: the
  key is a 32-byte identifier, hashed over its 32 bytes;
- `cFactory<T>::Create`'s `cIdentifier::GenerateIdentifier(...)`
  (`factory.hpp:52`), where `cIdentifier` declares only a static `Generate`
  returning a `cIdentifier` by value (`object.hpp:35`) and the result is
  assigned to the `cIdentifier*` field `_identifier` (`object.hpp:83`): the
  object stores the identifier that `Generate` returns;
- the event table's two files, which do not agree with each other:
  `event_manager.cpp` defines `cEventDispatcher` and `cEventHandler` in
  namespace `harpy`, while `event_manager.hpp` defines `mEvent` and `cEvent`
  in namespace `realware` and inserts a `cVector` into a map of `cIdVector`
  pointers (`event_manager.hpp:61, 69`). The model has one listener table:
  the dispatcher of the `.cpp`, with the header's `Subscribe` by identifier
  as a second entry point on the same table.

## Model

| member | source | states |
|---|---|---|
| Base.DecimalRoundTrip | engine/src/object.cpp:13 | the decimal text `std::to_string` gives of n reads back as n |
| Base.DecimalInjective | engine/src/object.cpp:13 | distinct counter values have distinct decimal texts |
| Base.CStringLength | engine/src/render_context_gl.cpp:296 | strlen: no NUL before the result, and a NUL at the result when the string is longer |
| Identity.MakeIdHoldsTextPrefix | engine/src/object.cpp:13-14 | the identifier's first bytes are seed followed by the decimal counter, up to 32 bytes, and the bytes after that text are zero |
| Identity.MakeId | engine/src/object.cpp:13-14 | the reference definition of an identifier: the first 32 bytes of the seed followed by the decimal counter and its NUL, zero-padded; MakeIdHoldsTextPrefix and DistinctCountersGiveDistinctIds state its properties, and Generate's contract is stated through it |
| Identity.DistinctCountersGiveDistinctIds | engine/src/object.cpp:11-15 | two counter values whose texts fit in 32 bytes with the terminator give different identifiers for the same seed |
| Identity.IdentifierRegistry.constructor | engine/src/object.cpp:19 | the static counter starts at zero |
| Identity.IdentifierRegistry.Generate | engine/src/object.cpp:17-22 | the identifier is built from the seed and the counter's value before the call, and the counter moves on by one, wrapping at 2^64 |
| Identity.FreshObjectHeader | engine/src/object.hpp:80-83 | a new object is unoccupied, has allocator index 0 and no identifier |
| Identity.GetID | engine/src/object.hpp:76 | an object's ID is the ID of the identifier it holds |
| ByteHash.Mix | engine/src/math.cpp:157 | one loop pass yields a u64 value |
| ByteHash.Rounds | engine/src/math.cpp:155-159 | the hash after the loop is a u64 value |
| Base.LittleEndian | engine/src/math.cpp:161-163 | the reference value of bytes copied into a zeroed integer, least significant byte first; the hash tail and the WAV header fields both use it, ByteHash.TailBelow2To24 bounds the tail below 2^24 and Base.LittleEndianBound bounds any n bytes |
| ByteHash.HashValue | engine/src/math.cpp:152-166 | the reference definition of the hash: the rounds over the whole 4-byte words XORed with the tail; Hash's loop is proved equal to it, and HashOfEmpty, HashIsU64 and HashReadsOnlyPrefix state its properties |
| ByteHash.Hash | engine/src/math.cpp:152-166 | the loop computes the recursive hash definition: floor(n/4) mixing rounds over the first floor(n/4) bytes, then XOR with the little-endian tail |
| ByteHash.HashOfEmpty | engine/src/math.cpp:154-165 | the hash of no bytes is the seed 0x9e3779b97f4a7c15 |
| ByteHash.TailBelow2To24 | engine/src/math.cpp:161-163 | the tail copied into the u32 holds at most three bytes, so it is below 2^24 |
| ByteHash.HashIsU64 | engine/src/math.cpp:152-166 | the hash is below 2^64, so the cast to cpuword loses nothing |
| ByteHash.HashReadsOnlyPrefix | engine/src/math.cpp:155-163 | two inputs of equal length that agree on their first floor(n/4) + n%4 bytes hash alike |
| ChunkLayout.GetChunkLocalPosition | engine/src/hash_table.hpp:216-222 | a local position is a u32 value |
| ChunkLayout.GetChunkIndex | engine/src/hash_table.hpp:210-213 | the u32 quotient of a global position by K; SplitGlobalPosition proves that it and GetChunkLocalPosition split a position into chunk * K + slot with the slot below K |
| ChunkLayout.SplitGlobalPosition | engine/src/hash_table.hpp:210-222 | a global position splits into chunk g / K and slot g % K, with chunk * K + slot == g and slot < K |
| ChunkLayout.EmptyStoreLastCount | engine/src/hash_table.hpp:94-95 | with no chunk, the wrapped index `_chunkCount - 1` still gives a last-chunk count of K |
| ChunkLayout.LastChunkCount | engine/src/hash_table.hpp:94-95 | the last chunk holds ec - (cc-1)K objects, at most K, and it is full exactly when ec == cc*K |
| ChunkLayout.SlotOf | engine/src/hash_table.hpp:210-222 | the slot of global index g is the (chunk, position) pair with chunk*K + position == g |
| ChunkLayout.SlotOfInjective | engine/src/hash_table.hpp:210-222 | different global indices occupy different slots |
| ChunkLayout.LiveSlotBelowLastCount | engine/src/hash_table.hpp:121-122 | a slot that passes Find's position check holds a live element |
| ChunkLayout.ElementLookup | engine/src/hash_table.hpp:168-181 | GetElement's chunk/position arithmetic returns element index exactly when index < elementCount |
| ChunkLayout.EraseLayout | engine/src/hash_table.hpp:151-159 | Erase's last slot is that of element ec-1, in the last chunk, and the chunk empties exactly when (ec-1) % K == 0; the layout invariant holds afterwards |
| ChunkLayout.LastSlotOfLastElement | engine/src/hash_table.hpp:151-154 | the slot Erase moves from holds the last element |
| ChunkLayout.LastSlot | engine/src/hash_table.hpp:151-154 | where Erase as written finds the last element and how many elements the last chunk holds; LastSlotOfLastElement proves that for a non-empty store this is slot (n-1) % K of chunk (n-1) / K and a count of (n-1) % K + 1 |
| ChunkLayout.EraseAt | engine/src/hash_table.hpp:151-159 | Erase as written after its scan: the last element copied into the found slot, the chunk count one lower when the last chunk held one element, the element count one lower; EraseLayout states which slot is the last one and that the last chunk goes exactly when it held one element |
| ChunkLayout.EraseAsWritten | engine/src/hash_table.hpp:143-165 | Erase as written on a store: the scan over every slot of the allocated chunks, live or not, then EraseAt; ScanFindsErasedElement shows it finding an element that is no longer stored |
| ChunkLayout.AllocateChunkResult | engine/src/hash_table.hpp:186-193 | at the chunk ceiling the result is index 0 with the count unchanged; otherwise the new chunk's index with the count one higher |
| ChunkLayout.InsertTargetAppends | engine/src/hash_table.hpp:91-101 | Insert has a slot exactly when ec < maxChunks*K; that slot is that of index ec, and the layout invariant holds for ec+1 |
| ChunkLayout.InsertTargetAsWritten | engine/src/hash_table.hpp:91-99 | Insert's target slot and new chunk count as written: at the chunk ceiling it is slot (0, 0); InsertTargetWhenFull and InsertAsWrittenOverwritesAtCeiling state that defect |
| ChunkLayout.InsertTarget | engine/src/hash_table.hpp:91-99 | the corrected target: None exactly at the chunk ceiling, otherwise the same slot as written; InsertTargetAppends, InsertTargetWithRoom and InsertAsWrittenBelowCeiling relate it to position n = chunk * K + slot and to the code as written |
| ChunkLayout.InsertTargetWhenFull | engine/src/hash_table.hpp:94-99 | with every chunk full, Insert opens chunk cc at position 0 below the ceiling and has no slot at it |
| ChunkLayout.InsertTargetWithRoom | engine/src/hash_table.hpp:91-95 | with room in the last chunk, Insert writes slot ec of that chunk and the chunk count stays |
| ChunkLayout.InsertAsWrittenBelowCeiling | engine/src/hash_table.hpp:91-101 | below the ceiling the code as written and the corrected Insert pick the same slot |
| ChunkLayout.InsertAsWritten | engine/src/hash_table.hpp:89-114 | Insert as written on a store: a fresh chunk when one is allocated, the entry written at InsertTargetAsWritten's slot, the element count one higher; InsertAsWrittenBelowCeiling and InsertAsWrittenOverwritesAtCeiling state its behaviour below and at the ceiling |
| ChunkLayout.InsertAsWrittenOverwritesAtCeiling | engine/src/hash_table.hpp:94-101 | with maxChunks full chunks, the code as written targets slot (0,0) while the corrected Insert fails |
| ChunkLayout.FirstSlot | engine/src/hash_table.hpp:131-136 | the first position in a chunk whose object has the key, and None exactly when none has |
| ChunkLayout.ScanAllSlots | engine/src/hash_table.hpp:129-137 | the scan as written returns the first slot in chunk-major, slot-minor order that holds an object with the key, live or not; it returns None exactly when no slot of any chunk holds one |
| ChunkLayout.FirstIndexOf | engine/src/hash_table.hpp:129-137 | the corrected scan finds the first live element with the key, and None exactly when none has |
| ChunkLayout.ScanFindsErasedElement | engine/src/hash_table.hpp:143-165 | insert a and b, erase b: the scan as written still finds b at (0,1); erasing b again makes the store [[a,a]] with no elements, so a is lost |
| ChunkLayout.FreshChunk | engine/src/hash_table.hpp:191 | a fresh chunk has K slots, none of them holding an object |
| ChunkLayout.Lzcnt32 | engine/src/hash_table.hpp:227 | the leading-zero count of a u32 locates its highest set bit, and is 32 exactly for zero |
| ChunkLayout.MakeHashMask | engine/src/hash_table.hpp:225-231 | mask + 1 is the largest power of two not above the u32 size |
| ChunkLayout.LeadingZerosIsLog2 | engine/src/hash_table.hpp:227-228 | 31 - lzcnt(x) is floor(log2 x) |
| ChunkLayout.MakeHashMaskIsLargestPowerOfTwo | engine/src/hash_table.hpp:225-231 | mask + 1 is a power of two p with p <= size < 2p |
| ChunkLayout.MakeHashMaskOfPowerOfTwo | engine/src/hash_table.hpp:225-231 | for a size 2^k, the mask is 2^k - 1 |
| ChunkLayout.MaskedBelowSize | engine/src/hash_table.hpp:110-111 | any hash ANDed with the mask indexes within the table |
| HashTable.DefaultDescriptor | engine/src/hash_table.hpp:18-23 | the defaults: 16 KiB chunks, 256 chunks, 4096 buckets |
| HashTable.ObjectsPerChunkFill | engine/src/hash_table.hpp:66-67 | K objects of the type fit in a chunk and K+1 do not |
| HashTable.AdmissibleSizes | engine/src/hash_table.hpp:60-74 | for admissible sizes, K is a u32 value and the mask is below the bucket count |
| HashTable.DefaultDescriptorAdmissible | engine/src/hash_table.hpp:18-23 | the defaults are admissible for any object of at most 16 KiB |
| HashTable.Bucket | engine/src/hash_table.hpp:110-111 | the bucket of an identifier is at most the mask |
| HashTable.Masked | engine/src/hash_table.hpp:110-111 | a masked hash is at most the mask |
| HashTable.BucketInTable | engine/src/hash_table.hpp:119 | every identifier's bucket lies inside the bucket table |
| HashTable.HashTable.constructor | engine/src/hash_table.hpp:60-74 | the table starts valid with no elements and one chunk, K from the descriptor and the mask of its bucket count |
| HashTable.HashTable.AllocateChunk | engine/src/hash_table.hpp:184-194 | at the ceiling it returns 0 and changes nothing; otherwise it returns the old count, which then grows by one; the contents stay |
| HashTable.HashTable.DeallocateChunk | engine/src/hash_table.hpp:197-207 | an index past the count changes nothing; otherwise the count drops by one; the contents stay |
| HashTable.HashTable.GetElementCount | engine/src/hash_table.hpp:38 | the count is the number of elements |
| HashTable.HashTable.LastChunkObjectCount | engine/src/hash_table.hpp:121-122 | the element count of the last chunk that Find's bucket test compares against; ChunkLayout.LastChunkCount and LiveSlotBelowLastCount state that a slot is live exactly when it is below this count in the last chunk |
| HashTable.HashTable.GetElement | engine/src/hash_table.hpp:168-181 | element index when index < count, None otherwise |
| HashTable.HashTable.ScanLive | engine/src/hash_table.hpp:129-137 | the chunk-by-chunk scan finds the first live slot with the key |
| HashTable.HashTable.ScanChunk | engine/src/hash_table.hpp:131-136 | the scan of one chunk stops at the first live slot with the key or at the end of the live slots |
| HashTable.HashTable.ScanNextChunk | engine/src/hash_table.hpp:129-137 | after the inner loop over chunk i the scanned count is the next chunk's first global index, or the element count after the last chunk |
| HashTable.HashTable.Find | engine/src/hash_table.hpp:117-140 | the bucket's slot when it is live and holds the key, the first live slot with the key otherwise |
| HashTable.HashTable.FindIsSound | engine/src/hash_table.hpp:117-140 | Find returns a live slot holding the key, and None exactly when no element has the key |
| HashTable.HashTable.FirstLiveSlotIsLive | engine/src/hash_table.hpp:129-137 | the scan returns a live slot with the key, and None exactly when no element has it |
| HashTable.HashTable.BucketHitIsLive | engine/src/hash_table.hpp:119-127 | a bucket hit that passes the position check points at a live element with the key |
| HashTable.HashTable.Insert | engine/src/hash_table.hpp:89-114 | at the ceiling it fails and changes nothing; otherwise the element is appended at slot SlotOf(count), a chunk is added when the last was full, the key's bucket points at it, and only that slot changes |
| HashTable.HashTable.PlaceElement | engine/src/hash_table.hpp:101-104 | writing the new element into its slot appends it to the contents and keeps every other slot |
| HashTable.HashTable.Erase | engine/src/hash_table.hpp:143-165 | no live element with the key changes nothing; otherwise the last element moves into the erased one's place, the count drops by one, the last chunk is released when it empties, and one slot changes |
| HashTable.HashTable.MoveLast | engine/src/hash_table.hpp:151-156 | copying the last element over element g gives the contents with g replaced by the last, without the last |
| MemoryPool.FirstLive | engine/src/memory_pool.hpp:26 | the first live record at the address, and None when there is none |
| MemoryPool.FreedAt | engine/src/memory_pool.hpp:11-17 | freeing a record sets its flag and keeps its size, its address and every other record |
| MemoryPool.LiveBytesAfterFree | engine/src/memory_pool.hpp:37 | freeing a live record lowers the bytes in use by exactly its size |
| MemoryPool.ReservedBytesAfterFree | engine/src/memory_pool.hpp:46-47 | freeing leaves the bytes handed out unchanged |
| MemoryPool.LiveWithinReserved | engine/src/memory_pool.hpp:46-47 | the bytes in use never exceed the bytes handed out |
| MemoryPool.AlignUp | engine/src/memory_pool.hpp:22 | a size rounded up to the alignment is a multiple of it, less than one alignment more |
| MemoryPool.FreedAtKeepsBlocks | engine/src/memory_pool.hpp:11-17 | freeing keeps the blocks aligned, inside the pool and pairwise disjoint |
| MemoryPool.DistinctAddresses | engine/src/memory_pool.hpp:11-17 | non-empty, pairwise disjoint records start at strictly increasing addresses, so no two share an address |
| MemoryPool.FreedAddressNotLive | engine/src/memory_pool.hpp:26 | once the live record at an address is freed, no live record starts there, which is the double-free safety that Free relies on |
| MemoryPool.MemoryPool.constructor | engine/src/memory_pool.hpp:22 | an empty pool of the given size, record limit and alignment |
| MemoryPool.MemoryPool.GetAllocCount | engine/src/memory_pool.hpp:35 | the number of allocation records |
| MemoryPool.MemoryPool.GetByteSize | engine/src/memory_pool.hpp:36 | the pool's byte size |
| MemoryPool.MemoryPool.GetBytesUsed | engine/src/memory_pool.hpp:37 | occupied minus freed is the size of the live records, at most the pool size |
| MemoryPool.MemoryPool.GetLastFreedBytes | engine/src/memory_pool.hpp:38 | the reserved size of the block freed last; Free's contract sets it to the freed record's size and Allocate's leaves it unchanged |
| MemoryPool.MemoryPool.Allocate | engine/src/memory_pool.hpp:25 | a request for 0 bytes fails; success appends a live, aligned record inside the pool, disjoint from the others, keeping the earlier records; failure changes nothing |
| MemoryPool.MemoryPool.Free | engine/src/memory_pool.hpp:26 | true exactly when a live record has the address; that first record is freed and the freed bytes grow by its size; afterwards no live record has the address, so a second Free of it returns false |
| MemoryPool.MemoryPool.New | engine/src/memory_pool.hpp:28-33 | allocates sizeof(T), not the size argument, and places the object there: an aligned address, a new live record after the unchanged earlier ones; an objByteSize (sizeof(T)) of 0 makes Allocate fail, whatever the ignored size argument is |
| Factory.GetType | engine/src/object.hpp:20-23 | the class name is the macro's literal type name |
| Factory.GetTypeStatic | engine/src/object.hpp:22 | the literal name TRITON_OBJECT spells for the class; Factory.GetType states that the virtual GetType returns it, and Create's contract generates identifiers from it |
| Factory.Factory.constructor | engine/src/factory.hpp:23 | the factory starts with counter 0 and the given allocator and identifier source |
| Factory.Factory.Create | engine/src/factory.hpp:36-55 | at the counter ceiling it fails before allocating; otherwise the object gets an allocation of sizeof(T) and the identifier of its type name and the old counter, at an aligned address, as a new live record after the unchanged earlier ones; the factory counter never moves |
| Factory.Factory.Destroy | engine/src/factory.hpp:58-64 | the object's allocation is freed and every other record stays |
| Events.EmptyBuffer | engine/src/event_manager.cpp:55-60 | Send without data passes an empty buffer |
| Events.HandlersOf | engine/src/event_manager.cpp:64-67 | the handlers of a type, none when the type has no list; Send's contract invokes exactly these, and SendAfterSubscribe relates it to Subscribe |
| Events.Broadcast | engine/src/event_manager.cpp:67-70 | one invocation per handler, in order, each with the same data |
| Events.FirstOfReceiver | engine/src/event_manager.cpp:42-51 | the first handler of the receiver, and None exactly when it has none |
| Events.UnsubscribedKeepsOthers | engine/src/event_manager.cpp:42-51 | unsubscribing keeps every other receiver's handlers, in order |
| Events.Unsubscribed | engine/src/event_manager.cpp:42-51 | the handler list after Unsubscribe: the first handler of the receiver removed; UnsubscribedKeepsOthers, UnsubscribedRemovesOne and UnsubscribeUndoesSubscribe state its properties |
| Events.UnsubscribedRemovesOne | engine/src/event_manager.cpp:42-51 | unsubscribing removes exactly one of the receiver's handlers, or none when it has none |
| Events.UnsubscribeUndoesSubscribe | engine/src/event_manager.cpp:24-53 | subscribing a receiver with no handler and then unsubscribing it restores the list |
| Events.SendAfterSubscribe | engine/src/event_manager.cpp:24-71 | after subscribing, Send invokes the old handlers, then the new one |
| Events.EventDispatcher.constructor | engine/src/event_manager.cpp:22 | no handler lists |
| Events.EventDispatcher.SubscribeKeyed | engine/src/event_manager.hpp:64-71 | the handler is appended to its type's list, created when missing; the other lists stay |
| Events.EventDispatcher.Subscribe | engine/src/event_manager.cpp:24-34 | the handler is appended to its type's list, created when missing; the other lists stay |
| Events.EventDispatcher.Unsubscribe | engine/src/event_manager.cpp:36-53 | a missing type changes nothing; otherwise the receiver's first handler is removed from that list |
| Events.EventDispatcher.Send | engine/src/event_manager.cpp:62-71 | the handlers of the type are invoked in order with the data, and none when the type has no list |
| Events.EventDispatcher.SendWithoutData | engine/src/event_manager.cpp:55-60 | Send with an empty buffer |
| ShaderText.Cleaned | engine/src/render_context_gl.cpp:33-44 | the cleaned text is no longer than the source and holds only tab, LF, CR and printable ASCII |
| ShaderText.CleanedAppend | engine/src/render_context_gl.cpp:37-41 | cleaning works character by character: it distributes over concatenation |
| ShaderText.CleanedOfAllowed | engine/src/render_context_gl.cpp:37-41 | a text of allowed characters is left as it is |
| ShaderText.CleanedIdempotent | engine/src/render_context_gl.cpp:33-44 | cleaning twice is cleaning once |
| ShaderText.CleanedKeepsAllowed | engine/src/render_context_gl.cpp:33-44 | every allowed character keeps its count and every other one disappears |
| ShaderText.CleanShaderSource | engine/src/render_context_gl.cpp:33-44 | the loop computes the cleaned text |
| ShaderText.DefineLineIsOneLine | engine/src/render_context_gl.cpp:433 | a define of a name without line breaks is one line |
| ShaderText.DefineLine | engine/src/render_context_gl.cpp:433 | one `#define Name Index` line; DefineLineIsOneLine states that it holds exactly one line break when the name has none |
| ShaderText.DefineBlock | engine/src/render_context_gl.cpp:431-433 | the define lines of all pairs in list order; DefineBlockLines and DefineInShader state its properties |
| ShaderText.DefineBlockLines | engine/src/render_context_gl.cpp:431-433 | the define block has one line per pair |
| ShaderText.Shader.constructor | engine/src/render_context_gl.cpp:251 | a new shader has empty texts |
| ShaderText.DefineInShader | engine/src/render_context_gl.cpp:427-438 | no pairs leave both texts alone; otherwise the define block is prepended to both |
| ShaderText.FindFrom | engine/src/render_context_gl.cpp:354 | the first occurrence at or after the start, and None exactly when there is none |
| ShaderText.Find | engine/src/render_context_gl.cpp:354 | std::string::find: the first occurrence, and None (npos) exactly when there is none |
| ShaderText.ReplaceFirst | engine/src/render_context_gl.cpp:354-356 | no occurrence leaves the text alone; otherwise the length changes by the difference of the two lengths |
| ShaderText.ReplaceFirstSplits | engine/src/render_context_gl.cpp:354-356 | the result is the text before the first occurrence, the replacement, and the text after it |
| ShaderText.ReplaceFirstAllowed | engine/src/render_context_gl.cpp:354-368 | replacing within allowed text by allowed text gives allowed text |
| ShaderText.ReplaceAt | engine/src/render_context_gl.cpp:356 | std::string::replace keeps what lies before and after the replaced range |
| ShaderText.FindAndReplace | engine/src/render_context_gl.cpp:354-356 | the find-then-replace step computes the first-occurrence replacement |
| ShaderText.FileShaderTextLayout | engine/src/render_context_gl.cpp:281-291 | a shader read from a file is the version header, the render-path define, the define block, then the cleaned file text |
| ShaderText.HeaderOf | engine/src/render_context_gl.cpp:254-279 | the header is empty exactly for an enumerator the switch has no case for; otherwise it is a render path name starting with RENDER_PATH_ |
| ShaderText.FileShaderText | engine/src/render_context_gl.cpp:281-291 | the text of a shader built from a file: version and define header, the define block, then the cleaned file text up to its NUL; FileShaderTextLayout states its layout |
| ShaderText.CreateShaderFromFiles | engine/src/render_context_gl.cpp:247-291 | RENDER_PATH_NONE gives null; otherwise a new shader whose texts are laid out as above |
| ShaderText.CreateShaderFromBase | engine/src/render_context_gl.cpp:341-381 | a new shader whose texts are the base's with the function replaced, the passthrough call removed, cleaning, the defines, the first version line removed and the version header prepended |
| ShaderText.DerivedShaderTextAllowed | engine/src/render_context_gl.cpp:368-386 | a derived shader's text is all allowed characters, so strlen sees all of it |
| ShaderText.DerivedShaderText | engine/src/render_context_gl.cpp:341-381 | the text of a shader derived from a base shader: the version header, then the define block and the edited, cleaned base text with its version line removed; DerivedShaderTextAllowed states that only allowed characters follow the header |
| ShaderText.NoNulInAllowed | engine/src/render_context_gl.cpp:293-297 | strlen of an allowed text is its full length |
| ShaderText.BuildDefinePairs | engine/src/render_context_gl.cpp:831-843 | fails exactly when the texture and name counts differ; otherwise pair i is (name i, i) |
| FontAtlas.NextPowerOfTwoIsLeast | engine/src/font_manager.cpp:99-114 | for 1 <= n <= 2^31 the result is the least power of two not below n |
| FontAtlas.NextPowerOfTwo | engine/src/font_manager.cpp:99-114 | 1 for n = 0 and for n above 2^31; otherwise a power of two p with n <= p < 2n, the least one by the lemma above |
| FontAtlas.MakeAtlasSizePowerOf2 | engine/src/font_manager.cpp:116-120 | both sizes are rounded by NextPowerOfTwo |
| FontAtlas.Advance | engine/src/font_manager.cpp:151-160 | the pen moves right by width+1; it wraps to a new row exactly when it reaches 2048, and then descends by the row height + 1 |
| FontAtlas.FinalHeight | engine/src/font_manager.cpp:95-96 | the atlas is at least as high as the last row and the pen's row |
| FontAtlas.Font.constructor | engine/src/font_manager.hpp:32-42 | a new font has no glyphs |
| FontAtlas.SizingStep | engine/src/font_manager.cpp:78-91 | one loaded glyph's effect on the sizing state: counted, inserted unless present, the width check, the pen advance; WideGlyphPassesWidthCheck shows the check at work |
| FontAtlas.SizingAfter | engine/src/font_manager.cpp:51-93 | the sizing state after the loop over codes 0..n-1; GlyphCountIsLoadedCount, AlphabetIsLoadedGlyphs, AtlasWidthBelowMax and XOffsetBelowMax state its properties, and FillAlphabetAndFindAtlasSize's loop is proved equal to it |
| FontAtlas.FillAlphabetAndFindAtlasSize | engine/src/font_manager.cpp:46-97 | the loop over the 256 codes computes the reference sizing, then the final height |
| FontAtlas.GlyphCountIsLoadedCount | engine/src/font_manager.cpp:51-59 | the glyph count grows by the number of codes that are not skipped and load |
| FontAtlas.AlphabetIsLoadedGlyphs | engine/src/font_manager.cpp:51-76 | the alphabet holds exactly the codes that load and are not newline, space or tab |
| FontAtlas.AtlasWidthBelowMax | engine/src/font_manager.cpp:80-81 | when every glyph is narrower than the maximum, the width check keeps the atlas width below 2048 or unchanged from its initial value |
| FontAtlas.XOffsetBelowMax | engine/src/font_manager.cpp:78-91 | the x offset stays below 2048 |
| FontAtlas.WideGlyphPassesWidthCheck | engine/src/font_manager.cpp:80-81 | a glyph 2048 wide makes the unsigned subtraction wrap, and the atlas width becomes 2049 |
| FontAtlas.Offsets | engine/src/font_manager.cpp:135-136 | one atlas offset per glyph |
| FontAtlas.OffsetsArePens | engine/src/font_manager.cpp:133-136 | each glyph's offset is the pen position before it |
| FontAtlas.PenBefore | engine/src/font_manager.cpp:133-160 | the pen position before the k-th glyph; OffsetsArePens and FillAtlasWithGlyphs state that each glyph's offset is this pen |
| FontAtlas.GlyphIndexInRange | engine/src/font_manager.cpp:142-145 | the glyph-pixel bound check always holds inside the glyph |
| FontAtlas.PixelAtInjective | engine/src/font_manager.cpp:143 | pixels of a glyph that fits its row land on distinct atlas bytes |
| FontAtlas.BlitPixel | engine/src/font_manager.cpp:142-147 | one guarded pixel write keeps every byte outside the glyph and extends the copied region |
| FontAtlas.BlitRow | engine/src/font_manager.cpp:140-148 | one row of the glyph is copied and nothing outside the glyph changes |
| FontAtlas.BlitGlyph | engine/src/font_manager.cpp:138-149 | bytes outside the glyph's rectangle keep their values, and a glyph that fits its row is copied in full |
| FontAtlas.MovePen | engine/src/font_manager.cpp:151-160 | the pen update computes Advance |
| FontAtlas.BlankStep | engine/src/font_manager.cpp:126-149 | bytes that no glyph so far covers stay zero |
| FontAtlas.FillAtlasWithGlyphs | engine/src/font_manager.cpp:122-173 | a new W*H buffer, each glyph's offset is its pen position, and every byte that no glyph covers is zero |
| FontAtlas.GetCharacterCount | engine/src/font_manager.cpp:335-338 | strlen of the text's C string |
| FontAtlas.GetNewlineCount | engine/src/font_manager.cpp:340-351 | the number of newlines before the first NUL |
| FontAtlas.NewlinesStopAtNul | engine/src/font_manager.cpp:343 | nothing after a NUL is counted |
| FontAtlas.NewlinesAtMostCharacters | engine/src/font_manager.cpp:340-351 | there are never more newlines than characters |
| Wav.LittleEndianRoundTrip | engine/src/sound_context_al.cpp:32-53 | a value below 256^n written as n little-endian bytes reads back as itself |
| Wav.LittleEndianBytesRoundTrip | engine/src/sound_context_al.cpp:32-53 | n bytes read little-endian and written back are the same bytes |
| Base.LittleEndianBound | engine/src/sound_context_al.cpp:32-53 | a field of n bytes is below 2^(8n) = 256^n |
| Wav.InputFile.constructor | engine/src/sound_context_al.cpp:23 | an opened file is at position 0 |
| Wav.InputFile.ReadBytes | engine/src/sound_context_al.cpp:28 | fread of bytes delivers the next bytes, as many as remain, and advances past them |
| Wav.InputFile.ReadItem | engine/src/sound_context_al.cpp:32 | fread of one item delivers it when it fits; otherwise nothing, and the position is at the end |
| Wav.TagAt | engine/src/sound_context_al.cpp:28 | a tag is at most four bytes |
| Wav.FieldAt | engine/src/sound_context_al.cpp:32 | a 2-byte field read from the file is a u16 value and a 4-byte field a u32 value |
| Wav.DecodeHeader | engine/src/sound_context_al.cpp:28-53 | the reference reading of a header, each field at its fixed offset; DecodeEncodedHeader and DecodeIgnoresTags state its round trip and independence, and ReadHeader's loop of reads is proved equal to it |
| Wav.DecodeEncodedHeader | engine/src/sound_context_al.cpp:27-53 | decoding the 44-byte encoding of a header gives back every field |
| Wav.DecodeIgnoresTags | engine/src/sound_context_al.cpp:28-53 | the nine numeric fields depend only on the bytes outside the four tags |
| Wav.TagMatchesExactly | engine/src/sound_context_al.cpp:29 | the string comparison succeeds exactly when the four tag bytes spell the name |
| Wav.Diagnostics | engine/src/sound_context_al.cpp:29-52 | at most four error messages |
| Wav.DiagnosticsEmptyIffTagsMatch | engine/src/sound_context_al.cpp:28-52 | no message is printed exactly when all four tags are RIFF, WAVE, "fmt " and data |
| Wav.DataByteSizeIsWholeFrames | engine/src/sound_context_al.cpp:56-57 | the data size is a whole number of frames, at most the chunk size and less than one frame below it |
| Wav.FrameSize | engine/src/sound_context_al.cpp:56 | the bytes of one sample frame, channels times bytes per sample |
| Wav.SampleCount | engine/src/sound_context_al.cpp:56 | `int NumSamples`: the whole frames in the data chunk, wrapped to s32; SixteenBitStereoSizes states its value for 16-bit stereo |
| Wav.DataByteSize | engine/src/sound_context_al.cpp:57 | the u32 data size of the whole frames; DataByteSizeIsWholeFrames states that for a u32 chunk size it is that size rounded down to whole frames |
| Wav.SixteenBitStereoSizes | engine/src/sound_context_al.cpp:56-67 | for 16-bit stereo there are subchunk2Size/4 samples, all copied, in 4 bytes each |
| Wav.WavStructure.constructor | engine/src/sound_manager.hpp:18-36 | a new structure is all zero with no data |
| Wav.LoadWAVFile | engine/src/sound_context_al.cpp:17-71 | the header is the decoded bytes, the log is the tag messages, the buffer has the computed data size, and for 16-bit stereo it holds the file's next bytes, as many items as the file has |
| Wav.ReadHeader | engine/src/sound_context_al.cpp:28-53 | reading the header field by field gives the decoded header, and the position is 44 or the end of the file |
| Wav.ReadTag | engine/src/sound_context_al.cpp:28 | one tag read gives the tag at its offset |
| Wav.ReadField | engine/src/sound_context_al.cpp:32 | one field read gives the field when it fits and leaves the old value otherwise |
| Wav.ReportTags | engine/src/sound_context_al.cpp:29-52 | the messages printed are the diagnostics of the header |
| Wav.DataSizes | engine/src/sound_context_al.cpp:56-57 | the sample count and data size as the s32 and u32 arithmetic computes them |
| Wav.ReadData | engine/src/sound_context_al.cpp:55-67 | a buffer of the data size, filled from the file for 16-bit stereo |
| Wav.CopySamples | engine/src/sound_context_al.cpp:59-67 | the loop copies the file's bytes into the buffer for every item the file still has |
| Wav.CopyItem | engine/src/sound_context_al.cpp:64 | one item read extends the copied prefix by one item when the file has it |
| Wav.WavFormatMatchesFile | engine/src/sound_context_al.cpp:103-124 | 8 and 16 bits pick the format of that width and channel count; other widths keep STEREO16 |
| Wav.WavFormat | engine/src/sound_context_al.cpp:103-124 | the OpenAL format Create chooses from the depth and channel count; WavFormatMatchesFile states each case |
| Wav.Create | engine/src/sound_context_al.cpp:87-129 | another category loads nothing; WAV yields the decoded header, its messages, and buffer data in the file's format, size and rate |

## Left out

- File, GPU and audio I/O are not modelled. Files become their contents. FreeType glyph loading becomes a 256-entry sequence of optional glyph sizes, and rendering becomes bitmaps. OpenGL program creation and compile logs, OpenAL sources and buffers, and `Print` output are not modelled. Only Wav.LoadWAVFile and Wav.Create return their printed messages as a log. The other printed messages are dropped: Factory.Create's message at the counter ceiling (`factory.hpp:40`), the RENDER_PATH_NONE message of `CreateShaderFromFiles` (`render_context_gl.cpp:257`) and the array-size mismatch message of `CreateRenderPass` (`render_context_gl.cpp:835`).
- Concurrency and floating point are not modelled (glyph advances, text width and height).
- `cHashTable<T>`'s destructor is not modelled, and neither is the 32-bit `cpuword` build.
- The two-argument hash of an identifier is `cMath::Hash` of its bytes masked to the bucket count. The identifier is not hashed in place.
- `id_vec.hpp` is not part of this model. A handler list is a sequence: `Add` appends, `Delete` removes the handler the scan found, and the `maxEventPerTypeCount` capacity is not modelled.
- A dispatcher's receivers are addresses. `Delete(listenerReceiver->GetID())` is taken to remove the first handler with that receiver, which is the one the scan found, since the handlers of one receiver share its identifier.
- `memory_pool.cpp` is not part of this model, so the bodies of `cMemoryPool::Allocate` and `Free` are not available. Their contracts state what the header's state implies: Allocate appends an aligned live record inside the pool or fails and changes nothing; Free flags a live record and returns whether it found one. Two clauses go beyond the header and are model choices: Allocate fails for a request of 0 bytes (MemoryPool.MemoryPool.Allocate's `size == 0` ensures), and the constructor's `allocs` argument is a hard cap on the number of records (`|allocs| <= maxAllocs` in the pool invariant, and Allocate fails when the cap is reached). The model's Allocate bumps an offset (`lastAddress`) to meet that contract; no first-fit search, block splitting or merging is modelled, and neither are the arena's bytes. Only Factory's `cMemoryAllocator::Allocate(size, alignment)` and `Deallocate` calls are taken to be this pool, at its configured alignment.
- The pool allocations of the glyph bitmaps (`font_manager.cpp:71`), the atlas pixels (`font_manager.cpp:126`), the `sWAVStructure` (`sound_context_al.cpp:19`) and the sample data (`sound_context_al.cpp:58`) are not modelled. Those buffers are fresh values, so the model has no pool exhaustion on those paths and no null pointer from a failed allocation.
- ChunkLayout.ScanAllSlots: a slot in which no object was ever constructed is `Vacant`, which matches no key. The source reads the identifier of such raw allocator storage (`hash_table.hpp:131-134`), which is undefined behaviour, for example in `Find` on a new table or in `Find` of an absent key with fewer than K elements.
- ChunkLayout.EraseAsWritten: its scan counts a never-constructed slot as a non-match, as ChunkLayout.ScanAllSlots does, where the source's read of it (`hash_table.hpp:145-147`) is undefined behaviour.
- A newly allocated chunk is all `Vacant` in the value model (ChunkLayout.InsertAsWritten), so that the as-written scans can tell never-constructed storage from a stale copy. The class (HashTable.HashTable.AllocateChunk) keeps the row's old contents, since fresh allocator memory is indeterminate and nothing it proves reads a slot at or past the element count. Both stand for the same raw block.
- HashTable.HashTable.AllocateChunk: the `cMemoryAllocator::Allocate` of the chunk's block (`hash_table.hpp:191`) is not modelled. The chunks are the preallocated rows of an `array2`, so an allocator failure below the chunk ceiling cannot happen in the model.
- HashTable.HashTable.DeallocateChunk: the `cMemoryAllocator::Deallocate` of the chunk's block (`hash_table.hpp:203`) is not modelled. The row stays in the `array2` and only the chunk count drops.
- HashTable.HashTable.Insert: the element, object and identifier together, is an input. It stands for the object that `_context->Create<T>(_chunks[elementChunkIndex], idx, args...)` builds in its slot (`hash_table.hpp:104`) and for the identifier that construction stamps on it, which Insert then hashes (`hash_table.hpp:110`). `cContext::Create` is only declared, without parameters (`context.hpp:18-19`), so nothing defines that construction. The identifier is not tied to `Identity.IdentifierRegistry.Generate`, so any identifier may be inserted, a duplicate of a live one included; Find and Erase then act on the first live element that carries it.
- HashTable.HashTable.constructor: the `cMemoryAllocator::Allocate` calls for the `_chunks` pointer array (`hash_table.hpp:68`) and the `_hashTable` bucket array (`hash_table.hpp:71`) are not modelled. Both become fresh arrays, so their allocation cannot fail.
- MemoryPool.MemoryPool.New: the source does not check that Allocate succeeded (`memory_pool.hpp:31-32`) and constructs the object at a null pointer when it fails, which is undefined behaviour. The model returns None then, and the records are unchanged.
- Factory.Factory.Create: the source does not check that the allocator succeeded. The model returns None when it fails, and in that case allocates nothing and takes no identifier.
- ShaderText.CreateShaderFromFiles: on RENDER_PATH_NONE the source has already taken the shader's block from the pool and returns without freeing it. The model does not show that leak.
- FontAtlas.FillAlphabetAndFindAtlasSize: the glyph's `s32` width and height are taken as the bitmap's unsigned sizes. A width of 2^31 or more that would truncate is not modelled.
- FontAtlas.FillAtlasWithGlyphs: the alphabet is visited in `std::unordered_map` order, which is unspecified. The model takes that order as an input. The `usize` pixel index is not wrapped.
- FontAtlas.FillAtlasWithGlyphs: states only that every byte no glyph covers is zero and that each glyph's offset is its pen position. It states nothing about the final value of any byte a glyph covers. BlitGlyph states the copy of one glyph, but the composition of the copies over the whole alphabet is not proved: a later glyph may overwrite an earlier one, and a glyph wider than what remains of its row spills into the next row.
- FontAtlas.BlitGlyph: the full copy is stated only for a glyph that fits within the atlas width from its offset. A wider glyph's pixels wrap onto the next row, and only the bytes outside the glyph are stated for it.
- Font texture creation, the freeing of the atlas pixels, `GetTextWidth` and `GetTextHeight` are not modelled. They depend on the render context and on floating point.
- Wav.DataByteSize: `NumSamples * (_bitsPerSample / 8) * _numChannels` (`sound_context_al.cpp:57`) is a signed `int` product, which overflows with undefined behaviour when it exceeds 2^31 - 1 (16-bit stereo with a data chunk size of 2^31 + 4, say). The model gives it the two's-complement value converted to u32 instead.
- Wav.DataSizes: computes the same product as Wav.DataByteSize, so its value on a signed overflow is the same two's-complement u32 value, where the source's behaviour is undefined.
- Wav.LoadWAVFile: requires a non-zero frame size. The source divides by `_numChannels * (_bitsPerSample / 8)` and has undefined behaviour when that is 0.
- Wav.LoadWAVFile: a failed `fopen_s` is not modelled. The source goes on with a null `FILE*`; the model always has the file's contents.
- Wav.LoadWAVFile: an item `fread` reads only partly is not delivered. The field keeps its old value.
- Wav.LoadWAVFile: the samples are modelled as bytes, two per u16 item. `_numSamples`, never assigned by the source, stays 0.
- Wav.Create: the OpenAL source parameters and the buffer upload become the returned `BufferData` value.
- HashTable.HashTable.constructor: requires the sizes to be admissible. The object size and K must be positive, `0 < maxChunkCount`, the product of K and the chunk limit must be a u32 value, and the bucket count as a u32 must be between 1 and 2^31 - 1 (below 2^31, so that `MakeHashMask` is defined). The source assumes this of its descriptor and does not check it.
- ChunkLayout.MakeHashMask: requires a size between 1 and 2^31 - 1 as a u32. The source's `__lzcnt` of 0 gives 32, and its shift is then undefined.
- Identity.DistinctCountersGiveDistinctIds: stated only for identifiers whose text fits in 31 bytes. Longer texts are cut to 32 bytes by the `memcpy`, and two counters can then share an identifier. `memcpy` also reads past the end of a short `std::string`; the model pads with zero bytes.

## Findings

| source | as written | input that shows it | evidently intended | confidence | as-written member | corrected member |
|---|---|---|---|---|---|---|
| engine/src/hash_table.hpp:94-101 | When every chunk is full and no chunk can be added, `AllocateChunk` returns 0 and Insert writes the new object into slot (0,0), overwriting element 0 while the element count still grows | a table with K slots per chunk and maxChunkCount full chunks, e.g. ec = maxChunkCount * K | Insert fails and leaves the table unchanged | not executed; high that the overwrite happens, medium on the intended reaction | ChunkLayout.InsertAsWrittenOverwritesAtCeiling | HashTable.HashTable.Insert |
| engine/src/hash_table.hpp:129-137 | The scans of Find and Erase visit all K slots of every chunk, including slots past the last live element that still hold a stale copy left by Erase | K = 2, one chunk: insert a, insert b, erase b; Find(b) still returns slot (0,1), and erasing b again copies a into slot (0,1) and leaves no element, so a is lost. The same bound also reads slots in which no object was ever constructed, with undefined behaviour: `Find` of any key on a new table reads slot (0,0), and with K >= 2 and one element, `Find` of an absent key reads slot (0,1) | The scans stop at the live elements, so an erased key is not found and no raw slot is read | not executed; high | ChunkLayout.ScanFindsErasedElement | HashTable.HashTable.FindIsSound |
