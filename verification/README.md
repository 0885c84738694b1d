# cma: a relocatable arena allocator, modelled in Dafny

cma.c hands out memory from one mapping (`cm_do_alloc`). It also keeps a
registry of the slots in that mapping that hold pointers into it
(`cm_grow`, `cm_affect_ptr`). Each registered slot is stored as its delta
from the slot registered before it. The delta is encoded in base-64 digits
(`write_vlq`): the flag 0x80 marks every digit but the last, and 0x40 marks
a negative delta.

`cm_serialize` appends the deltas, followed by a zero byte, to the end of
the handed-out bytes. A client that maps the same bytes at another address
calls `cm_do_deserialize`. It reads the deltas back from the last byte
downward (`read_vlq`). It takes the old base to be the word in the first
slot, less the size of the root object. Every non-NULL slot the walk
reaches is moved by the distance between the new base and the old one. If
the live mapping itself moves, `recalculate_addr` translates the registry
in place.

The model is pure and functional:

- Addresses are 64-bit unsigned integers.
- Process memory is a map from addresses to bytes.
- The arena (`struct cm_attr`) is an immutable record.
- The address list is a sequence of nodes.
- Each C function is a Dafny function that returns the new arena together
  with `Success(value)` or `Failure(errno)`.

The modules follow the source:

| module | what it models |
|---|---|
| `Machine` | integer widths, wrap-around, little-endian words in memory |
| `Distance` | `subptr_64`, `subptr_32`, `get_ptrdiff` |
| `Vlq` | `reverse_vlq`, `write_vlq`, `read_vlq`, `oor_vlq` |
| `Chain` | delta chains: running sums, encodings, and where a reader stops |
| `Registry` | the size accessors, `cm_grow`, `cm_do_alloc`, `cm_affect_ptr` |
| `Relocation` | `recalculate_addr` |
| `Serial` | `cm_serialize` and its copy loop |
| `Deserial` | `cm_do_deserialize` |
| `Roundtrip` | serialize, then deserialize at another address |
| `Scenario` | the shared-memory example |

Three places where the code and its evident intent differ are modelled
both ways, through a `Variant` parameter:

- `AsWritten` follows the code.
- `Fixed` follows the intent.

The rest of the model uses `Fixed` wherever the two differ (see
"## Findings").

cma.h (lines 25-27) declares a different interface from the one cma.c
implements: a `CM_NO_NULL` flag, a `cm_serialize` that takes a root, and
a `cm_deserialize(addr, len)` that returns a pointer. The model follows
cma.c:

- The old base is derived from the first slot.
- `cm_affect_ptr` registers a slot even for a NULL target.
- The sign is carried by the least significant digit, which is the last
  byte read.
- `read_vlq` has no length limit.
- `cm_do_deserialize` returns 0 or -1 and restores `*addr`.

## Model

| member | source | states |
|---|---|---|
| Distance.Subptr64 | cma.c:106-118 | the result is exactly ptr1 - ptr2 with the incoming flag kept when the distance is within ±INT64_MAX; otherwise it is -1 with the flag raised, so a distance of -2^63 is refused |
| Distance.Subptr32 | cma.c:120-130 | the distance narrowed to int32 when no flag came in and it fits; otherwise -1 with the flag raised; the flag is never cleared |
| Distance.GetPtrdiff | cma.c:132-137 | the flag starts clear; it ends clear exactly when ptr1 - ptr2 fits int32, and then the value is that distance, otherwise -1 |
| Vlq.ReverseVlq | cma.c:38-48 | byte i of the result is byte 7 - i of the argument, on the two's-complement bit pattern of the shifts (the masks make the sign-filling right shifts harmless; the left shifts are taken as bit shifts, see "## Left out") |
| Vlq.ReverseVlqInvolution | cma.c:38-48 | swapping the bytes twice gives the word back |
| Vlq.ReverseVlqView | cma.c:38-48 | the byte view of the swapped word is the byte view of the word, reversed |
| Vlq.Encoding | cma.c:63-79 | reference layout of an encoded delta: as many bytes as the magnitude of the delta has base-64 digits (1 to 6), every byte but the last flagged 0x80, the last unflagged and carrying 0x40 exactly for a negative delta |
| Vlq.WriteVlq | cma.c:63-79 | for every offset but INT32_MIN the returned length is the number of base-64 digits of the magnitude of offset, between 1 and 6 (1 for 0) |
| Vlq.WriteVlqLayout | cma.c:63-79 | the word write_vlq builds holds, from its lowest byte up, exactly the reference encoding followed by zero bytes |
| Vlq.DigitCountIsLeast | cma.c:75-76 | the digit count is the least k with magnitude < 64^k |
| Vlq.ReadVlq | cma.c:50-61 | a decoded delta is never INT32_MIN and the reported length lies between 1 and the number of bytes at and below the start |
| Vlq.ReadWriteVlq | cma.c:50-79 | read_vlq started on the top byte of an encoding laid out downward returns the encoded offset and exactly the encoding's length |
| Vlq.OorVlq | cma.c:81-89 | the guard returns 0 exactly when offset - vlq_sum, taken in true integers, lies in (INT32_MIN, INT32_MAX], even though the C subtraction wraps in int32 |
| Chain.ApartLive | cma.c:433-434 | when the slot words a chain describes do not overlap, no delta after the first is zero, so the reader sees the whole chain |
| Chain.ZeroCutsChain | cma.c:433-434 | a zero delta after the first ends the walk: no delta at or after it is read |
| Chain.LastPrefixSum | cma.c:301-303 | the last slot reached by the deltas is their sum, which is what vlq_sum accumulates |
| Registry.Created | cma.c:154-165 | a fresh arena has no root, nothing handed out, an empty registry, and satisfies the registry invariant |
| Registry.GetSize | cma.c:258-261 | -1 without an arena; otherwise map_size, taken modulo 2^64 as ssize_t, and equal to it while it fits |
| Registry.GetPreSize | cma.c:263-266 | -1 without an arena; otherwise map_size + vlq_size while that fits ssize_t |
| Registry.GetFreeSize | cma.c:268-272 | -1 without an arena; otherwise length - (map_size + vlq_size) modulo 2^64, and equal to it, possibly negative, while it fits ssize_t |
| Registry.NewDelta | cma.c:293-301 | a delta is produced exactly when the slot's offset from the base fits int32 and its difference from vlq_sum is a valid offset; the delta is that difference |
| Registry.Append | cma.c:293-310 | linking succeeds under the same condition; the list gains one tail node holding the delta and its encoding; vlq_sum becomes the slot's offset; vlq_size grows by the encoded length, modulo 2^64 |
| Registry.Grow | cma.c:279-312 | succeeds exactly when malloc does and the range checks pass; ENOMEM or ERANGE leave the arena untouched; success changes only the list |
| Registry.AppendRegisters | cma.c:293-310 | a successful link keeps the registry invariant (the prefix sums of the deltas are the registered offsets, vlq_sum their last, vlq_size their encoded length) and appends exactly the new slot's offset |
| Registry.RepeatedSlot | cma.c:293-303 | registering the last registered slot again always links and stores a zero delta, so a reader stops before the new entry and everything after it |
| Registry.NoRoomAsWritten | cma.c:332-335 | the space check as written compares the free size modulo 2^64 with the requested size |
| Registry.NoRoomCounterexample | cma.c:332-335 | a concrete arena in which a granted registration takes map_size + vlq_size past length, after which the check as written grants 1000 more bytes and the intended one refuses them |
| Registry.DoAlloc | cma.c:322-355 | EFAULT for a NULL arena or slot, ENOMEM when there is no room (equality included), the ftruncate failure next, each leaving the arena as it was; with the intended check a success leaves map_size + size + vlq_size below length and grows map_size by exactly size |
| Registry.Place | cma.c:337-354 | the block is base + old map_size and is written into the slot; map_size grows by size; the first allocation becomes the root and registers nothing; a failed registration truncates the file back and keeps map_size and the list |
| Registry.PlaceRegisters | cma.c:340-348 | the allocation keeps the registry invariant; a registering one appends the slot's offset, any other leaves the slots alone |
| Registry.AllocRegisters | cma.c:322-355 | the same for the whole of cm_do_alloc, failures included |
| Registry.FindSlot | cma.c:367-372 | the index found is the first node for the slot; no index means no node for it |
| Registry.AffectPtr | cma.c:357-375 | EFAULT for a NULL arena or slot; otherwise the target is stored in the slot first and no other byte changes; a registered slot has only its first node's target replaced; an unregistered slot is linked through cm_grow, NULL target or not, with cm_grow's errors |
| Registry.AffectRegisters | cma.c:357-375 | cm_affect_ptr keeps the registry invariant; it appends the slot's offset exactly when it links a new node |
| Registry.RetargetKeeps | cma.c:368-370 | changing a node's recorded target changes no delta, encoding or slot |
| Relocation.Shifted | cma.c:216-220 | a node's target moves by the coefficient unless it is NULL; its slot address moves by the stride times the coefficient; delta and encoding stay |
| Relocation.MoveRoot | cma.c:213-214 | the root's word moves by the coefficient when there is a root, and no other byte changes |
| Relocation.RecalculateAddr | cma.c:191-224 | the base is switched in every case; ERANGE exactly when new - old does not fit int64, with nothing else changed; vlq_size and vlq_sum are kept |
| Relocation.RecalculatedList | cma.c:199-221 | on success every node is shifted by new - old |
| Relocation.RelocatedSlots | cma.c:216-221 | after the call each registered slot holds its translated target |
| Relocation.RootMoved | cma.c:213-221 | the root's word, if no slot word overlaps it, ends up moved by the coefficient |
| Relocation.RelocateRegisters | cma.c:191-224 | with slot addresses moved byte for byte, the relocated arena keeps the registry invariant and the same slot offsets from its new base |
| Relocation.StrideDrifts | cma.c:219 | as written, a slot's offset from the base drifts by 7 × (new - old) |
| Relocation.StrideCounterexample | cma.c:219 | a one-slot arena moved from 0x1000 to 0x2000: the slot at offset 0 ends up at offset 0x7000 |
| Serial.Copy | cma.c:393-399 | the do-while loop copies between 1 and index + 1 bytes, the last of them without 0x80, or runs below the view (undefined) |
| Serial.CopyNode | cma.c:392-400 | the intended copy of a node leaves its word alone |
| Serial.CopyNodeFixed | cma.c:392-400 | the intended copy of a well-encoded node writes exactly the encoding of its delta, most significant digit first |
| Serial.CopyAllFixed | cma.c:392-400 | the intended outer loop writes the encodings of all deltas in list order and leaves the list alone |
| Serial.AreaBytes | cma.c:398-402 | the stored area is the zero byte at the lowest index and, above it, the copied bytes with the first at the top |
| Serial.Serialize | cma.c:377-408 | EFAULT without an arena; on success it returns the base; base, length, vlq_size, vlq_sum and the number of nodes are kept |
| Serial.AreaAllocated | cma.c:388-390 | the area is an unregistered allocation at base + map_size that changes only the local `vlq`; with the intended check there is room for the area and the encodings |
| Serial.FillFixed | cma.c:392-407 | the intended fill keeps the list, stores the area, and fails only when msync does on a truncatable file with nonzero flags |
| Serial.FillLayout | cma.c:392-402 | the area holds the zero byte at its bottom and, read downward from its top, the encodings in list order |
| Serial.SerializeLayout | cma.c:377-408 | intended cm_serialize on a consistent registry: map_size grows by vlq_size + 1, the area holds the terminated chain, the list and every other byte but the local are kept |
| Serial.CopyAsWrittenMulti | cma.c:394-399 | as written, a node whose delta takes two or more bytes yields its top digit and then a zero byte, not its encoding |
| Serial.CopyTwice | cma.c:394-399 | as written, the second byte copied comes from the view reversed back |
| Serial.CopyAsWrittenSingle | cma.c:394-399 | as written, a one-byte delta is copied correctly but leaves its node holding the swapped word; copying that node again yields a zero byte |
| Serial.CopyAllAsWrittenSingles | cma.c:392-400 | as written, a list of one-digit deltas is copied correctly and every node is left holding its swapped word |
| Serial.CopyAllAsWrittenAgain | cma.c:392-400 | a second cm_serialize of that list copies only zero bytes and restores the words |
| Deserial.Moved | cma.c:431-432 | NULL stays NULL; any other pointer moves by the coefficient modulo 2^64 |
| Deserial.FixSlotEffect | cma.c:430-437 | fixing a slot moves the pointer in it and changes no other byte |
| Deserial.Coefficient | cma.c:420-421 | the coefficient is start - (first slot's word - object_size), flagged exactly when that does not fit int64 |
| Deserial.FixAllMoves | cma.c:430-438 | with slot words apart, fixing them all moves each pointer exactly once |
| Deserial.FixAllFrame | cma.c:430-438 | fixing slots changes no byte outside them |
| Deserial.WalkVisits | cma.c:433-438 | the loop from a slot visits that slot and then the running sums of the deltas up to the first zero, and fixes exactly those |
| Deserial.Deserialize | cma.c:410-442 | empty data is undefined; the data keeps its length; failures are ERANGE or undefined behaviour |
| Deserial.DeserializeVisits | cma.c:410-442 | on data ending in a terminated chain, a nonzero coefficient makes the call visit the prefix sums of the live deltas in registration order and fix exactly those slots |
| Deserial.DeserializeUnmoved | cma.c:427-428 | data back at its old address is left untouched |
| Deserial.DeserializeOutOfRange | cma.c:421-425 | a coefficient that does not fit int64 fails with ERANGE and touches nothing |
| Roundtrip.OldBase | cma.c:420 | when the first slot still points object_size past the base, the reconstructed old base is the base |
| Roundtrip.SavedChain | cma.c:388-402 | the file saved after the intended cm_serialize ends in the encoded deltas, read downward from its last byte, then the zero byte, with every slot below them |
| Roundtrip.SavedWords | cma.c:377-408 | every slot word in the saved file is the word the slot held before cm_serialize |
| Roundtrip.RoundTrip | cma.c:377-442 | serialize, then deserialize at another address: the walk visits exactly the registered slot offsets in registration order, moves each slot's pointer by start - OldBase(a, object_size), the old base rebuilt from the first slot, which is the true base while that slot points object_size past it (NULL stays NULL), and leaves every other byte as saved |
| Scenario.Registration | examples/srv_shm.c:19-37 | the example's three allocations and one cm_affect_ptr leave map_size 53, deltas 0, 16, 13 (slots at 0, 16, 29), vlq_size 3; slot 0 points at the string (offset 24), slot 16 at the second struct (offset 29), slot 29 at the string |
| Scenario.SyncAndProcess | examples/cli_shm.c:44 | cm_sync saves 57 bytes ending in 0, 13, 16, 0, and cm_processing at the new address visits slots 0, 16, 29 and points them at the string and the second struct there |
| Scenario.Example | examples/srv_shm.c:19-39 | the whole example, from cm_create's state to the relocated slots |
| Scenario.ExampleAsWritten | cma.c:392-400 | as written, the example's first sync writes the right area but leaves the words swapped, and a second sync writes three zero deltas |

## Left out

- cm_create, cm_delete, cm_extend, cm_try_extend, cm_force_extend: these
  are mmap, munmap and mremap. `Created` is the state cm_create sets up
  once mmap has returned. `RecalculateAddr` is the part of cm_extend that
  runs after the mapping has moved.
- malloc, ftruncate and msync become the booleans of `Env`. The file size
  is recorded as the last value passed to ftruncate. errno is the
  `Failure` value, so the save and restore of errno in cm_do_alloc has
  nothing to model.
- Undefined behaviour becomes the error `Undefined`. This covers a read
  outside the data, a decoded digit string that overflows int32 in
  read_vlq, and a copy index running below the area in cm_serialize.
- The `offset - vlq_sum` subtraction in oor_vlq is signed overflow in C.
  The model takes it to wrap in two's complement, as the guard's
  comparisons presume.
- The left shifts in reverse_vlq (`vlq << 56`, `<< 40`, `<< 24`, `<< 8`)
  are undefined in C for a negative int64_t or one whose result does not
  fit. That happens for every multi-digit delta, whose first byte holds
  0x80, and for the swapped word the per-byte loop of cm_serialize
  reverses again. The model takes each shift as the two's-complement bit
  pattern shifted left, as the masks presume.
- AppendRegisters, PlaceRegisters, AllocRegisters, AffectRegisters: each
  requires vlq_size + 6 < 2^64. vlq_size is a size_t that could wrap,
  which is the TODO at cma.c:274-278. The lemmas say nothing about an
  arena past that point.
- The `*addr = start_addr` restore at the end of cm_do_deserialize: the
  model addresses the data by offset from its start, so it has no `*addr`
  to restore.
- cma.h: it declares a bitmap-registry variant (cm_add_ptr,
  cm_deserialize, a `bitmap` field) that cma.c does not implement. It is
  not modelled.
- Pointer provenance and the platform checks: addresses are plain
  integers, on an LP64 little-endian machine.
- The `mode` and `flags` fields: only the UNTRUNCABLE_FILE bit is used,
  and it is the boolean `untruncable`.
- Serialize: its own contract only bounds the result. The bytes it leaves
  are stated by SerializeLayout for the intended copy, and by the
  CopyAsWritten lemmas for the code as written.
- Deserialize: its own contract only bounds the result. What it visits
  and writes is stated by DeserializeVisits, DeserializeUnmoved,
  DeserializeOutOfRange and RoundTrip.
- ReadVlq: it is stated as a round trip over the reference encoding. It
  is not characterised on arbitrary bytes.
- RoundTrip: it requires the following:
  - the slot words are pairwise apart and inside map_size;
  - the local `vlq` of cm_serialize lies outside the handed-out bytes;
  - the mapping does not wrap around the address space;
  - the new address differs from the old one.
- CopyAllAsWrittenSingles: the list-level result as written covers
  one-digit deltas only. Longer deltas are covered node by node by
  CopyAsWrittenMulti.
- The examples' wrappers: `cma`, `ptr_to`, `cm_sync` and `cm_processing`
  are not defined in the files shown. The scenario takes them to be
  cm_do_alloc with the register flag, cm_affect_ptr, cm_serialize and
  cm_do_deserialize on one arena. The plain data writes of the example
  (`ur->x = 1`, the memcpy) are not modelled, because they touch no slot.

## Findings

| source | as written | input that shows it | evidently intended | confidence | as-written member | corrected member |
|---|---|---|---|---|---|---|
| cma.c:394-399 | `al->vlq = reverse_vlq(al->vlq)` runs inside the per-byte loop and stores the result in the node, so the word is swapped back and forth between bytes | a node with delta 65 (encoding 0x81, 0x01) is copied as 0x81, 0x00, which reads back as 64; any registry serialized a second time gets zero bytes for its one-digit deltas | swap the word once, into a local, before the loop, and leave the node alone | not executed | Serial.CopyAsWrittenMulti, Serial.CopyAllAsWrittenAgain | Serial.CopyAllFixed, Serial.SerializeLayout |
| cma.c:219 | `al->addr += translation_coeff` on a `void **` moves the slot address by 8 × coeff bytes, while targets move by coeff bytes | an arena with one slot at its base, moved from 0x1000 to 0x2000: the slot lands 0x7000 bytes into the new mapping | move slot addresses by coeff bytes, like the targets | not executed | Relocation.StrideCounterexample | Relocation.RelocateRegisters |
| cma.c:332 | `(size_t)cm_get_free_size(mem) <= size`: once cm_grow has taken map_size + vlq_size past length (the check runs before cm_grow adds up to 6 bytes), the negative free size turns into a huge size_t | 100-byte arena with 95 bytes handed out: registering a 4-byte block at offset 0x40 leaves map_size 99 and vlq_size 2, so the free size is -1, and a 1000-byte block is then granted | compare the free size as a signed quantity, refusing once map_size + vlq_size reaches length; this still lets map_size + vlq_size pass length by up to 6 bytes, because the check runs before cm_grow | not executed | Registry.NoRoomCounterexample | Registry.DoAlloc |
