/**
 The shared-memory example of the repository (examples/srv_shm.c and
 examples/cli_shm.c) run through the model. The server allocates a
 `struct example { char *s; int x; struct example *nxt; }` (24 bytes: `s`
 at offset 0, `x` at 8, `nxt` at 16) as the root, a 5-byte string for
 `ur->s`, a second struct for `ur->nxt`, points `ur->nxt->s` at the same
 string, and serializes. The client maps the 57 bytes elsewhere and
 relocates them with an object size of 24.

 The example's allocation macro is cm_do_alloc with registration on, its
 pointer macro cm_affect_ptr, its sync macro cm_serialize and its
 processing macro cm_do_deserialize. The plain data the example writes
 (`x` and the string) touches no slot and is not modelled.
 */
module Scenario {
  import opened Machine
  import opened Vlq
  import opened Chain
  import opened Registry
  import opened Serial
  import opened Deserial
  import opened Roundtrip

  /** Where the server's mapping lives, where the client maps it, and the
      two locals whose addresses the calls take: `ur` in the server and
      `vlq` in cm_serialize. */
  const OLD_BASE: u64 := 0x10000
  const NEW_BASE: u64 := 0x20000
  const LOCAL_UR: u64 := 0x7fff_0000
  const LOCAL_VLQ: u64 := 0x7fff_0100
  const LENGTH: u64 := 0x1000
  const ENV: Env := Env(true, true, true)

  /** The arena after cm_create on a shared-memory file. */
  const A0: Arena := Created(3, false, LENGTH, OLD_BASE)

  /** The arena fields the example's calls keep. */
  predicate SameMapping(a: Arena)
  {
    && a.fd == 3 && !a.untruncable && a.base == OLD_BASE && a.length == LENGTH
  }

  /** A registering allocation of `size` bytes for the slot `addr`, in an
      arena that has a root and room to spare: the block is base + map_size,
      the slot is appended to the registry and receives the block, and no
      other byte changes. */
  lemma AllocStep(a: Arena, addr: u64, size: u64, a': Arena)
    requires SameMapping(a) && Registered(a) && a.root != 0 && addr != 0
    requires a.mapSize + size + a.list.vlqSize < a.length
    requires Append(a.base, a.list, addr, a.base + a.mapSize, size).Some?
    requires a' == DoAlloc(AsWritten, Some(a), addr, size, true, ENV).arena.value
    ensures SameMapping(a') && Registered(a') && a'.root == a.root
    ensures a'.mapSize == a.mapSize + size
    ensures a'.list == Append(a.base, a.list, addr, a.base + a.mapSize, size).value
    ensures LoadWord(a'.mem, addr) == a.base + a.mapSize
    ensures forall x {:trigger ByteAt(a'.mem, x)} :: (x < addr || addr + POINTER_SIZE <= x) ==> ByteAt(a'.mem, x) == ByteAt(a.mem, x)
  {
    var r := DoAlloc(AsWritten, Some(a), addr, size, true, ENV);
    assert !NoRoom(AsWritten, a, size) by {
      NoRoomAsWritten(a, size);
    }
    AllocRegisters(AsWritten, a, addr, size, true, ENV);
  }

  /** The registration side of the example: cm_create, the three
      allocations and the pointer assignment leave a registry of the slots
      at offsets 0 (`ur->s`), 16 (`ur->nxt`) and 29 (`ur->nxt->s`), with
      deltas 0, 16 and 13, one encoded byte each; the slots hold the
      string, the second struct and the string again. */
  lemma Registration(a1: Arena, a2: Arena, a3: Arena, a4: Arena)
    requires a1 == DoAlloc(AsWritten, Some(A0), LOCAL_UR, 24, true, ENV).arena.value
    requires a2 == DoAlloc(AsWritten, Some(a1), OLD_BASE, 5, true, ENV).arena.value
    requires a3 == DoAlloc(AsWritten, Some(a2), OLD_BASE + 16, 24, true, ENV).arena.value
    requires a4 == AffectPtr(Some(a3), OLD_BASE + 29, OLD_BASE + 24, ENV).arena.value
    ensures SameMapping(a4) && a4.mapSize == 53 && a4.list.vlqSize == 3
    ensures Deltas(a4.list.nodes) == [0, 16, 13] && Slots(a4) == [0, 16, 29]
    ensures Registered(a4)
    ensures LoadWord(a4.mem, OLD_BASE) == OLD_BASE + 24
    ensures LoadWord(a4.mem, OLD_BASE + 16) == OLD_BASE + 29
    ensures LoadWord(a4.mem, OLD_BASE + 29) == OLD_BASE + 24
  {
    RootAllocated(a1);
    AllocStep(a1, OLD_BASE, 5, a2);
    StringRegistered(a1, a2);
    AllocStep(a2, OLD_BASE + 16, 24, a3);
    NextRegistered(a2, a3);
    LoadWordFrame(a2.mem, a3.mem, OLD_BASE);
    PointerAssigned(a3, a4);
  }

  /** cma(&ur, sizeof(*ur)): the first allocation records `ur` as the root
      and registers nothing. */
  lemma RootAllocated(a1: Arena)
    requires a1 == DoAlloc(AsWritten, Some(A0), LOCAL_UR, 24, true, ENV).arena.value
    ensures SameMapping(a1) && Registered(a1) && a1.root == LOCAL_UR
    ensures a1.mapSize == 24 && a1.list == AddrList([], 0, 0)
  {
    AllocRegisters(AsWritten, A0, LOCAL_UR, 24, true, ENV);
  }

  /** cma(&ur->s, 5): the string's slot, at the base, gets delta 0. */
  lemma StringRegistered(a1: Arena, a2: Arena)
    requires a1.base == OLD_BASE && a1.mapSize == 24 && a1.list == AddrList([], 0, 0)
    requires a2.mapSize == 29 && a2.list == Append(a1.base, a1.list, OLD_BASE, a1.base + a1.mapSize, 5).value
    ensures Deltas(a2.list.nodes) == [0] && a2.list.vlqSum == 0 && a2.list.vlqSize == 1
  {
  }

  /** cma(&ur->nxt, sizeof(*ur->nxt)): the second struct's slot, 16 bytes
      in, gets delta 16. */
  lemma NextRegistered(a2: Arena, a3: Arena)
    requires a2.base == OLD_BASE && a2.mapSize == 29
    requires Deltas(a2.list.nodes) == [0] && a2.list.vlqSum == 0 && a2.list.vlqSize == 1
    requires a3.list == Append(a2.base, a2.list, OLD_BASE + 16, a2.base + a2.mapSize, 24).value
    ensures Deltas(a3.list.nodes) == [0, 16] && a3.list.vlqSum == 16 && a3.list.vlqSize == 2
  {
  }

  /** ptr_to(&ur->nxt->s, ur->s): the slot 29 bytes in is not registered
      yet, so cm_affect_ptr registers it with delta 13. */
  lemma PointerAssigned(a3: Arena, a4: Arena)
    requires SameMapping(a3) && Registered(a3) && a3.mapSize == 53
    requires Deltas(a3.list.nodes) == [0, 16] && a3.list.vlqSum == 16 && a3.list.vlqSize == 2
    requires LoadWord(a3.mem, OLD_BASE) == OLD_BASE + 24
    requires LoadWord(a3.mem, OLD_BASE + 16) == OLD_BASE + 29
    requires a4 == AffectPtr(Some(a3), OLD_BASE + 29, OLD_BASE + 24, ENV).arena.value
    ensures SameMapping(a4) && a4.mapSize == 53 && a4.list.vlqSize == 3
    ensures Deltas(a4.list.nodes) == [0, 16, 13] && Slots(a4) == [0, 16, 29]
    ensures Registered(a4)
    ensures LoadWord(a4.mem, OLD_BASE) == OLD_BASE + 24
    ensures LoadWord(a4.mem, OLD_BASE + 16) == OLD_BASE + 29
    ensures LoadWord(a4.mem, OLD_BASE + 29) == OLD_BASE + 24
  {
    ExampleSums();
    assert Slots(a3) == [0, 16];
    assert !IsRegistered(a3.list, OLD_BASE + 29) by {
      forall j | 0 <= j < |a3.list.nodes| ensures a3.list.nodes[j].addr != OLD_BASE + 29 {
        assert a3.list.nodes[j].addr == OLD_BASE + Slots(a3)[j];
      }
    }
    AffectRegisters(a3, OLD_BASE + 29, OLD_BASE + 24, ENV);
    LoadWordFrame(a3.mem, a4.mem, OLD_BASE);
    LoadWordFrame(a3.mem, a4.mem, OLD_BASE + 16);
    var l4 := Append(a3.base, a3.list, OLD_BASE + 29, OLD_BASE + 24, 0).value;
    assert a4.list == l4;
    assert Deltas(l4.nodes) == Deltas(a3.list.nodes) + [13] by {
      assert l4.nodes[2].offset == 13;
      assert forall i | 0 <= i < 2 :: l4.nodes[i] == a3.list.nodes[i];
    }
  }

  /** The running sums of the example's deltas. */
  lemma ExampleSums()
    ensures PrefixSums([0, 16]) == [0, 16]
    ensures PrefixSums([0, 16, 13]) == [0, 16, 29]
  {
    assert Running(16, [13]) == [29];
    assert Running(0, [16, 13]) == [16, 29];
    assert Running(16, []) == [];
    assert Running(0, [16]) == [16];
  }

  /** msync's MS_SYNC flag, as cm_sync passes it. */
  const MS_SYNC: int := 4

  /** The registry the example serializes, as Registration leaves it. */
  predicate Registered3(a: Arena)
  {
    && SameMapping(a) && a.mapSize == 53 && a.list.vlqSize == 3
    && Deltas(a.list.nodes) == [0, 16, 13] && Slots(a) == [0, 16, 29]
    && Registered(a)
    && LoadWord(a.mem, OLD_BASE) == OLD_BASE + 24
    && LoadWord(a.mem, OLD_BASE + 16) == OLD_BASE + 29
    && LoadWord(a.mem, OLD_BASE + 29) == OLD_BASE + 24
  }

  /** The whole example: after the server's calls and cm_sync, the file
      holds 57 bytes ending in the area [0, 13, 16, 0] (the terminator,
      then the deltas 13, 16 and 0 read from the top down); cm_processing
      on those bytes mapped at NEW_BASE with the root's size visits the
      slots at offsets 0, 16 and 29 and points them at the string and the
      second struct in the new mapping. */
  lemma Example(a1: Arena, a2: Arena, a3: Arena, a4: Arena)
    requires a1 == DoAlloc(AsWritten, Some(A0), LOCAL_UR, 24, true, ENV).arena.value
    requires a2 == DoAlloc(AsWritten, Some(a1), OLD_BASE, 5, true, ENV).arena.value
    requires a3 == DoAlloc(AsWritten, Some(a2), OLD_BASE + 16, 24, true, ENV).arena.value
    requires a4 == AffectPtr(Some(a3), OLD_BASE + 29, OLD_BASE + 24, ENV).arena.value
    ensures |Saved(Serialize(Fixed, Some(a4), LOCAL_VLQ, MS_SYNC, ENV), OLD_BASE)| == 57
    ensures Saved(Serialize(Fixed, Some(a4), LOCAL_VLQ, MS_SYNC, ENV), OLD_BASE)[53..] == [0, 13, 16, 0]
    ensures Deserialize(Saved(Serialize(Fixed, Some(a4), LOCAL_VLQ, MS_SYNC, ENV), OLD_BASE), NEW_BASE, 24).Success?
    ensures Relocated(Deserialize(Saved(Serialize(Fixed, Some(a4), LOCAL_VLQ, MS_SYNC, ENV), OLD_BASE), NEW_BASE, 24).value)
  {
    Registration(a1, a2, a3, a4);
    SyncAndProcess(a4);
  }

  /** The client's view after cm_processing: the slots 0, 16 and 29 were
      fixed, in that order, and hold the string (24), the second struct
      (29) and the string again, as addresses in the new mapping. */
  predicate Relocated(w: Walked)
  {
    && w.visited == [0, 16, 29] && |w.blob| == 57
    && WordAt(w.blob, 0) == NEW_BASE + 24
    && WordAt(w.blob, 16) == NEW_BASE + 29
    && WordAt(w.blob, 29) == NEW_BASE + 24
  }

  /** cm_sync and cm_processing on the example's registry. */
  lemma SyncAndProcess(a4: Arena)
    requires Registered3(a4)
    ensures |Saved(Serialize(Fixed, Some(a4), LOCAL_VLQ, MS_SYNC, ENV), OLD_BASE)| == 57
    ensures Saved(Serialize(Fixed, Some(a4), LOCAL_VLQ, MS_SYNC, ENV), OLD_BASE)[53..] == [0, 13, 16, 0]
    ensures Deserialize(Saved(Serialize(Fixed, Some(a4), LOCAL_VLQ, MS_SYNC, ENV), OLD_BASE), NEW_BASE, 24).Success?
    ensures Relocated(Deserialize(Saved(Serialize(Fixed, Some(a4), LOCAL_VLQ, MS_SYNC, ENV), OLD_BASE), NEW_BASE, 24).value)
  {
    var r := Serialize(Fixed, Some(a4), LOCAL_VLQ, MS_SYNC, ENV);
    var blob := Saved(r, OLD_BASE);
    SyncAllocates(a4);
    ExampleRelocatable(a4);
    SerializeLayout(a4, LOCAL_VLQ, MS_SYNC, ENV, r);
    SavedChain(a4, LOCAL_VLQ, MS_SYNC, ENV, r, blob);
    ExampleEncodings();
    ExampleArea(a4.mapSize, TopDown(Deltas(a4.list.nodes)), blob);
    RoundTrip(a4, LOCAL_VLQ, MS_SYNC, ENV, NEW_BASE, 24);
    ExampleMoves(a4, Deserialize(blob, NEW_BASE, 24).value);
  }

  /** The area cm_sync asks for, 4 bytes at offset 53, fits. */
  lemma SyncAllocates(a4: Arena)
    requires Registered3(a4)
    ensures DoAlloc(Fixed, Some(a4), LOCAL_VLQ, Wrap64(a4.list.vlqSize + 1), false, ENV).result.Success?
  {
  }

  /** The example's registry meets the conditions of RoundTrip, and the
      old base the client reconstructs is the server's base. */
  lemma ExampleRelocatable(a4: Arena)
    requires Registered3(a4)
    ensures Relocatable(a4, LOCAL_VLQ)
    ensures OldBase(a4, 24) == OLD_BASE
  {
    assert a4.list.nodes[0].addr == OLD_BASE + Slots(a4)[0];
  }

  /** The top four bytes of the file. */
  lemma ExampleArea(mapSize: int, bytes: seq<byte>, blob: seq<byte>)
    requires mapSize == 53 && bytes == [0, 16, 13]
    requires |blob| == mapSize + |bytes| + 1
    requires Spells(blob, |blob| - 1, bytes + [0])
    ensures |blob| == 57 && blob[53..] == [0, 13, 16, 0]
  {
    var e := bytes + [0];
    assert e == [0, 16, 13, 0];
    assert blob[|blob| - 1 - 0] == e[0] && blob[|blob| - 1 - 1] == e[1];
    assert blob[|blob| - 1 - 2] == e[2] && blob[|blob| - 1 - 3] == e[3];
  }

  /** The example's deltas each encode as one byte holding the delta. */
  lemma ExampleEncodings()
    ensures AllValid([0, 16, 13]) && TopDown([0, 16, 13]) == [0, 16, 13]
  {
    assert Encoding(0) == [0] && Encoding(16) == [16] && Encoding(13) == [13];
    assert TopDown([13]) == [13];
    assert TopDown([16, 13]) == [16, 13];
  }

  /** What RoundTrip states, for the example's three slots. */
  lemma ExampleMoves(a4: Arena, w: Walked)
    requires Registered3(a4) && OldBase(a4, 24) == OLD_BASE
    requires w.visited == Slots(a4) && |w.blob| == 57
    requires forall k | 0 <= k < |a4.list.nodes| ::
      Slots(a4)[k] + POINTER_SIZE <= |w.blob| &&
      WordAt(w.blob, Slots(a4)[k]) == Moved(LoadWord(a4.mem, a4.list.nodes[k].addr), NEW_BASE - OLD_BASE)
    ensures Relocated(w)
  {
    assert a4.list.nodes[0].addr == OLD_BASE;
    assert a4.list.nodes[1].addr == OLD_BASE + 16;
    assert a4.list.nodes[2].addr == OLD_BASE + 29;
  }

  /** cm_sync as written on the same registry: the area it emits is the
      same, but every node keeps its word byte-swapped, so a second cm_sync
      of the still-mapped arena emits three zero deltas, which the client
      reads as a chain ending after the first slot. */
  lemma ExampleAsWritten(a4: Arena)
    requires Registered3(a4)
    ensures CopyAll(AsWritten, a4.list.nodes) == Some(Emission([0, 16, 13], ReversedWords(a4.list.nodes)))
    ensures CopyAll(AsWritten, ReversedWords(a4.list.nodes)) == Some(Emission([0, 0, 0], a4.list.nodes))
  {
    ExampleDigits(a4.list.nodes);
    SyncTwice(a4.list.nodes);
  }

  /** The example's nodes each hold a one-digit delta and its encoding. */
  lemma ExampleDigits(nodes: seq<Node>)
    requires forall i | 0 <= i < |nodes| :: WellEncoded(nodes[i])
    requires Deltas(nodes) == [0, 16, 13]
    ensures SingleDigits(nodes)
  {
    forall i | 0 <= i < |nodes| ensures Magnitude(nodes[i].offset) < 64 {
      assert nodes[i].offset == Deltas(nodes)[i];
    }
  }

  /** The two as-written copies of the example's three nodes. */
  lemma SyncTwice(nodes: seq<Node>)
    requires SingleDigits(nodes) && Deltas(nodes) == [0, 16, 13]
    ensures CopyAll(AsWritten, nodes) == Some(Emission([0, 16, 13], ReversedWords(nodes)))
    ensures CopyAll(AsWritten, ReversedWords(nodes)) == Some(Emission([0, 0, 0], nodes))
  {
    var ds := Deltas(nodes);
    CopyAllAsWrittenSingles(nodes);
    ExampleEncodings();
    assert TopDown(ds) == [0, 16, 13];
    CopyAllAsWrittenAgain(nodes);
    assert |nodes| == |ds| == 3;
    ZerosThree();
  }

  /** Three zero bytes, kept apart so the fact is proved in a small context. */
  lemma ZerosThree()
    ensures Zeros(3) == [0, 0, 0]
  {
  }
}
