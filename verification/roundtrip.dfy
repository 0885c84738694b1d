/**
 The two halves together: a registry serialized with the intended copy,
 synced to its file and mapped again at another address, is relocated by
 cm_do_deserialize slot by slot. The file holds the first map_size bytes
 from the old base once cm_serialize has grown map_size by the area, so the
 data handed to the deserializer is `Blob` of the memory after the call.
 */
module Roundtrip {
  import opened Machine
  import opened Distance
  import opened Vlq
  import opened Chain
  import opened Registry
  import opened Serial
  import opened Deserial

  /** The old base as cm_do_deserialize reconstructs it: the word in the
      first registered slot, less the size of the root object. */
  function OldBase(a: Arena, objectSize: u64): (r: u64)
    requires a.list.nodes != []
    ensures LoadWord(a.mem, a.list.nodes[0].addr) == a.base + objectSize ==> r == a.base
  {
    Sub64(LoadWord(a.mem, a.list.nodes[0].addr), objectSize)
  }

  /** The file contents after cm_serialize: the mapping from the base up to
      the new map_size. */
  function Saved(r: Ret<u64>, base: u64): (blob: seq<byte>)
    requires r.arena.Some?
    ensures |blob| == r.arena.value.mapSize
  {
    Blob(r.arena.value.mem, base, r.arena.value.mapSize)
  }

  /** The conditions under which a registry survives the trip: the slots
      are words inside the handed-out bytes that do not overlap, the
      mapping does not wrap around the address space, and the local `vlq`
      of cm_serialize lies outside the handed-out bytes. */
  predicate Relocatable(a: Arena, local: u64)
  {
    && Registered(a)
    && a.list.nodes != []
    && a.base + a.length <= TWO_64
    && Below(Slots(a), a.mapSize)
    && AllApart(Slots(a))
    && (local + POINTER_SIZE <= a.base || a.base + a.mapSize <= local)
  }

  /** Serialize, then deserialize the saved data at `start`: the walk visits
      exactly the registered slots, in registration order, moves the
      pointer each of them held before the call by the distance from the
      old base to `start` (NULL stays NULL), and leaves every other byte of
      the data as cm_serialize left it. */
  lemma RoundTrip(a: Arena, local: u64, flags: int, env: Env, start: u64, objectSize: u64)
    requires Relocatable(a, local)
    requires DoAlloc(Fixed, Some(a), local, Wrap64(a.list.vlqSize + 1), false, env).result.Success?
    requires -INT64_MAX <= start - OldBase(a, objectSize) <= INT64_MAX
    requires start != OldBase(a, objectSize)
    ensures Deserialize(Saved(Serialize(Fixed, Some(a), local, flags, env), a.base), start, objectSize).Success?
    ensures Deserialize(Saved(Serialize(Fixed, Some(a), local, flags, env), a.base), start, objectSize).value.visited
              == Slots(a)
    ensures forall k | 0 <= k < |a.list.nodes| ::
              WordAt(Deserialize(Saved(Serialize(Fixed, Some(a), local, flags, env), a.base), start, objectSize).value.blob,
                     Slots(a)[k])
              == Moved(LoadWord(a.mem, a.list.nodes[k].addr), start - OldBase(a, objectSize))
    ensures forall i | 0 <= i < |Saved(Serialize(Fixed, Some(a), local, flags, env), a.base)| && Outside(i, Slots(a)) ::
              Deserialize(Saved(Serialize(Fixed, Some(a), local, flags, env), a.base), start, objectSize).value.blob[i]
              == Saved(Serialize(Fixed, Some(a), local, flags, env), a.base)[i]
  {
    var r := Serialize(Fixed, Some(a), local, flags, env);
    var blob := Saved(r, a.base);
    var coeff: i64 := start - OldBase(a, objectSize);
    SerializeLayout(a, local, flags, env, r);
    SavedChain(a, local, flags, env, r, blob);
    SavedWords(a, local, flags, env, r, blob);
    var ds := Deltas(a.list.nodes);
    ChainIsSlots(a);
    assert Coefficient(blob, ds[0], start, objectSize) == Flagged(coeff, false);
    DeserializeVisits(blob, start, objectSize, ds, coeff);
    forall k | 0 <= k < |a.list.nodes|
      ensures WordAt(FixAll(blob, Slots(a), coeff), Slots(a)[k]) == Moved(LoadWord(a.mem, a.list.nodes[k].addr), coeff)
    {
      FixAllMoves(blob, Slots(a), coeff, k);
    }
    forall i | 0 <= i < |blob| && Outside(i, Slots(a)) ensures FixAll(blob, Slots(a), coeff)[i] == blob[i] {
      FixAllFrame(blob, Slots(a), coeff, i);
    }
  }

  /** The slots are the running sums of the whole chain. */
  lemma ChainIsSlots(a: Arena)
    requires Registered(a) && a.list.nodes != [] && AllApart(Slots(a))
    ensures PrefixSums(Live(Deltas(a.list.nodes))) == Slots(a)
    ensures Deltas(a.list.nodes)[0] == Slots(a)[0]
  {
    ApartLive(Deltas(a.list.nodes));
  }

  /** The saved data ends in the chain: its top bytes, read downward, are
      the encoded deltas and the zero byte, and every slot lies below
      them. */
  lemma SavedChain(a: Arena, local: u64, flags: int, env: Env, r: Ret<u64>, blob: seq<byte>)
    requires Relocatable(a, local) && a.mapSize + a.list.vlqSize < a.length
    requires Serialized(a, local, flags, env, r) && blob == Saved(r, a.base)
    ensures AllValid(Deltas(a.list.nodes))
    ensures |blob| == a.mapSize + |TopDown(Deltas(a.list.nodes))| + 1
    ensures Spells(blob, |blob| - 1, TopDown(Deltas(a.list.nodes)) + [0])
    ensures Below(Slots(a), |blob| - 1 - |TopDown(Deltas(a.list.nodes))|)
    ensures AllInData(blob, Slots(a))
  {
    RegisteredEncodes(a);
    var bytes := TopDown(Deltas(a.list.nodes));
    ChainBytes(a, local, flags, env, r);
    SpelledChain(r.arena.value.mem, a.base, a.mapSize, bytes, blob);
    BelowInData(blob, Slots(a), a.mapSize);
  }

  /** The area of a Serialized arena, addressed without wrap-around. */
  lemma ChainBytes(a: Arena, local: u64, flags: int, env: Env, r: Ret<u64>)
    requires Encodes(a.list) && Serialized(a, local, flags, env, r)
    requires a.base + a.mapSize < TWO_64
    ensures ByteAt(r.arena.value.mem, a.base + a.mapSize) == 0
    ensures ReadsDown(r.arena.value.mem, a.base + a.mapSize + |TopDown(Deltas(a.list.nodes))|, TopDown(Deltas(a.list.nodes)))
    ensures r.arena.value.mapSize == a.mapSize + |TopDown(Deltas(a.list.nodes))| + 1
  {
  }

  /** Memory holding a zero byte at `base + mapSize` and `bytes` read
      downward above it, seen as the byte string from `base` on: it ends in
      `bytes` and the zero byte, read from its last index downward. */
  lemma SpelledChain(mem: Mem, base: int, mapSize: nat, bytes: seq<byte>, blob: seq<byte>)
    requires ByteAt(mem, base + mapSize) == 0
    requires ReadsDown(mem, base + mapSize + |bytes|, bytes)
    requires blob == Blob(mem, base, mapSize + |bytes| + 1)
    ensures Spells(blob, |blob| - 1, bytes + [0])
  {
    var top := mapSize + |bytes|;
    forall i | 0 <= i < |bytes + [0]| ensures blob[top - i] == (bytes + [0])[i] {
      if i < |bytes| {
        assert ByteAt(mem, base + mapSize + |bytes| - i) == bytes[i];
      }
    }
  }

  /** Every slot word of the saved data is the word the slot held before
      cm_serialize. */
  lemma SavedWords(a: Arena, local: u64, flags: int, env: Env, r: Ret<u64>, blob: seq<byte>)
    requires Relocatable(a, local) && a.mapSize < a.length
    requires Serialized(a, local, flags, env, r) && blob == Saved(r, a.base)
    ensures forall k | 0 <= k < |a.list.nodes| ::
      0 <= Slots(a)[k] && Slots(a)[k] + POINTER_SIZE <= |blob| && WordAt(blob, Slots(a)[k]) == LoadWord(a.mem, a.list.nodes[k].addr)
  {
    forall k | 0 <= k < |a.list.nodes|
      ensures 0 <= Slots(a)[k] && Slots(a)[k] + POINTER_SIZE <= |blob| && WordAt(blob, Slots(a)[k]) == LoadWord(a.mem, a.list.nodes[k].addr)
    {
      SavedWord(a, local, flags, env, r, Slots(a)[k]);
    }
  }

  /** A word inside the handed-out bytes is kept by cm_serialize and read
      back from the file at its offset. */
  lemma SavedWord(a: Arena, local: u64, flags: int, env: Env, r: Ret<u64>, o: int)
    requires Serialized(a, local, flags, env, r)
    requires a.base + a.mapSize < TWO_64
    requires local + POINTER_SIZE <= a.base || a.base + a.mapSize <= local
    requires 0 <= o && o + POINTER_SIZE <= a.mapSize
    ensures o + POINTER_SIZE <= |Saved(r, a.base)|
    ensures WordAt(Saved(r, a.base), o) == LoadWord(a.mem, a.base + o)
  {
    BlobWord(r.arena.value.mem, a.base, r.arena.value.mapSize, o);
    LoadWordFrame(a.mem, r.arena.value.mem, a.base + o);
  }
}
