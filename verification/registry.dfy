/**
 The arena (struct cm_attr) and its pointer registry (the addr_list of
 struct cm_addr_list nodes): the size accessors, cm_grow, cm_do_alloc and
 cm_affect_ptr.

 The mapping itself, the backing file and malloc are outside the model: the
 mapping is the range [base, base + length) of `mem`, and whether malloc,
 ftruncate and msync succeed is an `Env` parameter. The file size is kept as
 the value last passed to ftruncate.
 */
module Registry {
  import opened Machine
  import opened Distance
  import opened Vlq
  import opened Chain

  /** Where the code and its evident intent part ways, `AsWritten` follows
      the code and `Fixed` the intent (see the findings in the README). */
  datatype Variant = AsWritten | Fixed

  /** One registered slot: the slot address `addr` (a `void **`), the target
      `ptr` last recorded for it, the size of the block allocated with it
      (0 for cm_affect_ptr), the delta `offset` from the previously
      registered slot (from the base for the first) and its encoding `vlq`. */
  datatype Node = Node(addr: u64, ptr: u64, len: u64, offset: int, vlq: bv64)

  /** The registry fields of struct cm_attr: addr_list in list order,
      vlq_size (bytes the encoded deltas take) and vlq_sum (the offset of
      the last registered slot from the base). */
  datatype AddrList = AddrList(nodes: seq<Node>, vlqSize: u64, vlqSum: i32)

  /** struct cm_attr with the fields cma.c uses; `fileSize` is the last size
      given to ftruncate and `mem` the process memory. */
  datatype Arena = Arena(
    fd: int,
    untruncable: bool,
    length: u64,
    base: u64,
    root: u64,
    mapSize: u64,
    list: AddrList,
    fileSize: u64,
    mem: Mem)

  /** Outcomes of the calls into the system: malloc, ftruncate, msync. */
  datatype Env = Env(mallocOk: bool, truncOk: bool, msyncOk: bool)

  /** A static helper's result: the arena afterwards and 0 / -1 with errno. */
  datatype Outcome = Outcome(arena: Arena, result: Result<()>)

  /** A public entry point's result; `arena` is None when `mem` was NULL. */
  datatype Ret<+T> = Ret(arena: Option<Arena>, result: Result<T>)

  /** trunc_file calls ftruncate only for a file the arena may truncate. */
  predicate Truncates(a: Arena)
  {
    !a.untruncable && a.fd != -1
  }

  /** cm_create's initial state once mmap has returned `base`. */
  function Created(fd: int, untruncable: bool, length: u64, base: u64): (a: Arena)
    ensures Registered(a)
    ensures a.mapSize == 0 && a.list.vlqSize == 0 && a.root == 0 && a.list.nodes == []
    ensures a.length == length && a.base == base
  {
    Arena(fd, untruncable, length, base, 0, 0, AddrList([], 0, 0), 0, map[])
  }

  // ---------------------------------------------------------------------
  // Size accessors
  // ---------------------------------------------------------------------

  /** cm_get_size: the bytes handed out, -1 for NULL. */
  function GetSize(m: Option<Arena>): (r: int)
    ensures m.None? ==> r == -1
    ensures m.Some? && m.value.mapSize <= INT64_MAX ==> r == m.value.mapSize
    ensures m.Some? ==> (r - m.value.mapSize) % TWO_64 == 0
  {
    if m.None? then -1 else Signed64(m.value.mapSize)
  }

  /** cm_get_pre_size: handed-out bytes plus the bytes a serialization of the
      registry needs, -1 for NULL. */
  function GetPreSize(m: Option<Arena>): (r: int)
    ensures m.None? ==> r == -1
    ensures m.Some? && m.value.mapSize + m.value.list.vlqSize <= INT64_MAX ==>
      r == m.value.mapSize + m.value.list.vlqSize
  {
    if m.None? then -1
    else
      var a := m.value;
      Signed64(Wrap64(a.mapSize + a.list.vlqSize))
  }

  /** cm_get_free_size: length minus the pre-size, -1 for NULL. The unsigned
      subtraction wraps, and the cast back to ssize_t turns a small overshoot
      into a negative number. */
  function GetFreeSize(m: Option<Arena>): (r: int)
    ensures m.None? ==> r == -1
    ensures m.Some? && -TWO_63 <= m.value.length - (m.value.mapSize + m.value.list.vlqSize) <= INT64_MAX ==>
      r == m.value.length - (m.value.mapSize + m.value.list.vlqSize)
    ensures m.Some? ==> (r - (m.value.length - (m.value.mapSize + m.value.list.vlqSize))) % TWO_64 == 0
  {
    if m.None? then -1
    else
      var a := m.value;
      var free := Wrap64(a.length - Wrap64(a.mapSize + a.list.vlqSize));
      SignedWrap(a.length - (a.mapSize + a.list.vlqSize));
      Signed64(free)
  }

  // ---------------------------------------------------------------------
  // The registry invariant
  // ---------------------------------------------------------------------

  /** The deltas stored in the list, in list order. */
  function Deltas(nodes: seq<Node>): (ds: seq<int>)
    ensures |ds| == |nodes|
    ensures forall i | 0 <= i < |nodes| :: ds[i] == nodes[i].offset
  {
    seq(|nodes|, i requires 0 <= i < |nodes| => nodes[i].offset)
  }

  lemma DeltasTail(nodes: seq<Node>)
    requires nodes != []
    ensures Deltas(nodes)[1..] == Deltas(nodes[1..])
  {
  }

  /** The registered slots as offsets from `base`. */
  function SlotsOf(base: u64, nodes: seq<Node>): (ss: seq<int>)
    ensures |ss| == |nodes|
    ensures forall i | 0 <= i < |nodes| :: ss[i] == nodes[i].addr - base
  {
    seq(|nodes|, i requires 0 <= i < |nodes| => nodes[i].addr - base)
  }

  /** The registered slot addresses. */
  function Addrs(nodes: seq<Node>): (ps: seq<int>)
    ensures |ps| == |nodes|
    ensures forall i | 0 <= i < |nodes| :: ps[i] == nodes[i].addr
  {
    seq(|nodes|, i requires 0 <= i < |nodes| => nodes[i].addr)
  }

  function Slots(a: Arena): seq<int>
  {
    SlotsOf(a.base, a.list.nodes)
  }

  predicate WellEncoded(n: Node)
  {
    ValidOffset(n.offset) && n.vlq == WriteVlq(n.offset).word
  }

  /** What cm_grow maintains: every node holds a valid delta and its
      encoding, the running sums of the deltas are the slots' offsets from
      the base, vlq_sum is the last of them and vlq_size counts the encoded
      bytes. */
  predicate Consistent(base: u64, l: AddrList)
  {
    && Encodes(l)
    && SlotsOf(base, l.nodes) == PrefixSums(Deltas(l.nodes))
    && l.vlqSum == Sum(Deltas(l.nodes))
  }

  /** Every node holds a valid delta and its encoding, and vlq_size is the
      length of the encodings. */
  predicate Encodes(l: AddrList)
  {
    && (forall i | 0 <= i < |l.nodes| :: WellEncoded(l.nodes[i]))
    && AllValid(Deltas(l.nodes))
    && l.vlqSize == EncodedLength(Deltas(l.nodes))
  }

  predicate Registered(a: Arena)
  {
    Consistent(a.base, a.list)
  }

  // ---------------------------------------------------------------------
  // cm_grow
  // ---------------------------------------------------------------------

  /** The list after cm_grow has linked a node for slot `addr`, or None when
      it rejects the slot: its offset from the base must be an int32
      (get_ptrdiff) and its delta from vlq_sum a valid offset (oor_vlq). The
      new tail holds the delta and its encoding, vlq_size grows by the
      encoding's length and vlq_sum becomes the slot's offset. */
  function Append(base: u64, l: AddrList, addr: u64, ptr: u64, len: u64): (r: Option<AddrList>)
    ensures r.Some? <==> INT32_MIN <= addr - base <= INT32_MAX && ValidOffset(addr - base - l.vlqSum)
    ensures r.Some? ==> ValidOffset(addr - base - l.vlqSum)
    ensures r.Some? ==>
      r.value.nodes == l.nodes + [Node(addr, ptr, len, addr - base - l.vlqSum, WriteVlq(addr - base - l.vlqSum).word)]
    ensures r.Some? ==> r.value.vlqSize == Wrap64(l.vlqSize + DigitCount(Magnitude(addr - base - l.vlqSum)))
    ensures r.Some? ==> r.value.vlqSum == addr - base
  {
    match NewDelta(base, l.vlqSum, addr)
    case None => None
    case Some(delta) =>
      var e := WriteVlq(delta);
      Some(AddrList(l.nodes + [Node(addr, ptr, len, delta, e.word)],
                    Wrap64(l.vlqSize + e.len),
                    Wrap32(l.vlqSum + delta)))
  }

  /** The range checks of cm_grow and the delta it stores: the slot's offset
      from the base (get_ptrdiff), rejected when it overflows or when its
      difference from vlq_sum is out of range (oor_vlq), then reduced by
      vlq_sum in int32 arithmetic. */
  function NewDelta(base: u64, vlqSum: i32, addr: u64): (d: Option<int>)
    ensures d.Some? <==> INT32_MIN <= addr - base <= INT32_MAX && ValidOffset(addr - base - vlqSum)
    ensures d.Some? ==> d.value == addr - base - vlqSum
  {
    var diff := GetPtrdiff(addr, base);
    if diff.overflow || OorVlq(diff.value, vlqSum) != 0 then None
    else Some(Wrap32(diff.value - vlqSum))
  }

  /** cm_grow: malloc, then Append; ENOMEM or ERANGE leave everything as
      it was. */
  function Grow(a: Arena, addr: u64, ptr: u64, len: u64, env: Env): (r: Outcome)
    ensures r.result.Success? <==> env.mallocOk && Append(a.base, a.list, addr, ptr, len).Some?
    ensures r.result.Failure? ==> r.arena == a
    ensures r.result.Failure? ==> r.result.error == if env.mallocOk then ERANGE else ENOMEM
    ensures r.result.Success? ==> r.arena == a.(list := Append(a.base, a.list, addr, ptr, len).value)
  {
    if !env.mallocOk then Outcome(a, Failure(ENOMEM))
    else
      match Append(a.base, a.list, addr, ptr, len)
      case None => Outcome(a, Failure(ERANGE))
      case Some(l) => Outcome(a.(list := l), Success(()))
  }

  /** A successful Append keeps the registry invariant and appends exactly
      the new slot's offset to the registered offsets (as long as vlq_size
      does not wrap). */
  lemma AppendRegisters(base: u64, l: AddrList, addr: u64, ptr: u64, len: u64)
    requires Consistent(base, l)
    requires l.vlqSize + 6 < TWO_64
    requires Append(base, l, addr, ptr, len).Some?
    ensures Consistent(base, Append(base, l, addr, ptr, len).value)
    ensures SlotsOf(base, Append(base, l, addr, ptr, len).value.nodes) == SlotsOf(base, l.nodes) + [addr - base]
  {
    var d := addr - base - l.vlqSum;
    var n := Node(addr, ptr, len, d, WriteVlq(d).word);
    var l' := Append(base, l, addr, ptr, len).value;
    ConsistentAppend(base, l, n, l');
  }

  /** vlq_size does not wrap while it stays six bytes below 2^64. */
  lemma AppendSize(size: int, d: int, size': int)
    requires 0 <= size && size + 6 < TWO_64 && ValidOffset(d)
    requires size' == Wrap64(size + DigitCount(Magnitude(d)))
    ensures size' == size + DigitCount(Magnitude(d))
  {
    assert |Encoding(d)| == DigitCount(Magnitude(d)) <= 6;
  }

  /** The invariant survives linking a well-encoded node whose delta leads
      from vlq_sum to its slot. */
  lemma ConsistentAppend(base: u64, l: AddrList, n: Node, l': AddrList)
    requires Consistent(base, l)
    requires WellEncoded(n) && n.addr - base == l.vlqSum + n.offset
    requires l'.nodes == l.nodes + [n]
    requires l'.vlqSum == l.vlqSum + n.offset
    requires l.vlqSize + 6 < TWO_64 && l'.vlqSize == Wrap64(l.vlqSize + DigitCount(Magnitude(n.offset)))
    ensures Consistent(base, l')
    ensures SlotsOf(base, l'.nodes) == SlotsOf(base, l.nodes) + [n.addr - base]
  {
    AppendSize(l.vlqSize, n.offset, l'.vlqSize);
    NodesAppend(base, l.nodes, n);
    DeltasAppend(Deltas(l.nodes), n.offset);
  }

  /** Appending a well-encoded node appends its delta and its slot. */
  lemma NodesAppend(base: u64, nodes: seq<Node>, n: Node)
    requires forall i | 0 <= i < |nodes| :: WellEncoded(nodes[i])
    requires WellEncoded(n)
    ensures forall i | 0 <= i < |nodes + [n]| :: WellEncoded((nodes + [n])[i])
    ensures Deltas(nodes + [n]) == Deltas(nodes) + [n.offset]
    ensures SlotsOf(base, nodes + [n]) == SlotsOf(base, nodes) + [n.addr - base]
  {
    assert forall i | 0 <= i < |nodes| :: (nodes + [n])[i] == nodes[i];
  }

  /** Appending a valid delta extends every derived quantity of the chain by
      that delta alone. */
  lemma DeltasAppend(ds: seq<int>, d: int)
    requires AllValid(ds) && ValidOffset(d)
    ensures AllValid(ds + [d])
    ensures PrefixSums(ds + [d]) == PrefixSums(ds) + [Sum(ds) + d]
    ensures Sum(ds + [d]) == Sum(ds) + d
    ensures EncodedLength(ds + [d]) == EncodedLength(ds) + DigitCount(Magnitude(d))
  {
    TopDownAppend(ds, d);
    SumAppend(ds, d);
    PrefixSumsAppend(ds, d);
  }

  /** Registering the last registered slot again (cm_do_alloc does not
      look for it in the list) succeeds and stores a zero delta, so the
      reader stops before the new entry and before every one after it. */
  lemma RepeatedSlot(base: u64, l: AddrList, ptr: u64, len: u64)
    requires Consistent(base, l) && l.nodes != []
    ensures Append(base, l, l.nodes[|l.nodes| - 1].addr, ptr, len).Some?
    ensures Deltas(Append(base, l, l.nodes[|l.nodes| - 1].addr, ptr, len).value.nodes) == Deltas(l.nodes) + [0]
    ensures forall rest: seq<int> :: |Live(Deltas(l.nodes) + [0] + rest)| <= |l.nodes|
  {
    var ds := Deltas(l.nodes);
    var n := |l.nodes|;
    LastPrefixSum(ds);
    assert SlotsOf(base, l.nodes)[n - 1] == l.nodes[n - 1].addr - base;
    var l' := Append(base, l, l.nodes[n - 1].addr, ptr, len).value;
    assert Deltas(l'.nodes) == ds + [0] by {
      assert l'.nodes == l.nodes + [l'.nodes[n]];
    }
    forall rest: seq<int> ensures |Live(ds + [0] + rest)| <= n {
      ZeroCutsChain(ds + [0] + rest, n);
    }
  }

  // ---------------------------------------------------------------------
  // cm_do_alloc
  // ---------------------------------------------------------------------

  /** The space check of cm_do_alloc. As written it compares the free size
      cast to size_t, which wraps to a huge value once the registry has
      pushed map_size + vlq_size past length; the intended check compares
      the true free size. Equality is rejected either way. */
  predicate NoRoom(v: Variant, a: Arena, size: u64)
  {
    match v
    case AsWritten => Wrap64(GetFreeSize(Some(a))) <= size
    case Fixed => a.length - (a.mapSize + a.list.vlqSize) <= size
  }

  /** The check as written compares the free size modulo 2^64. */
  lemma NoRoomAsWritten(a: Arena, size: u64)
    ensures NoRoom(AsWritten, a, size) <==> (a.length - a.mapSize - a.list.vlqSize) % TWO_64 <= size
  {
    var free := GetFreeSize(Some(a));
    ModEqual(free, a.length - a.mapSize - a.list.vlqSize);
  }

  lemma ModEqual(x: int, y: int)
    requires (x - y) % TWO_64 == 0
    ensures x % TWO_64 == y % TWO_64
  {
    var k := (x - y) / TWO_64;
    assert x == y + k * TWO_64;
  }

  /** The space check as written lets through a block the arena has no
      room for. An arena of 100 bytes with 95 handed out and a root has
      room for a registered 4-byte block by either check; the two-byte
      encoding of its slot's delta (64) then takes map_size + vlq_size to
      101, one past the length, and the free size to -1. From there the
      check as written sees a free size of 2^64 - 1 and grants even a
      1000-byte block, which the intended check refuses. */
  lemma NoRoomCounterexample()
    ensures var a := Arena(-1, false, 100, 0x1000, 0x2000, 95, AddrList([], 0, 0), 0, map[]);
      var env := Env(true, true, true);
      var r := DoAlloc(AsWritten, Some(a), 0x1040, 4, true, env);
      && r == DoAlloc(Fixed, Some(a), 0x1040, 4, true, env)
      && r.result.Success?
      && r.arena.value.mapSize == 99 && r.arena.value.list.vlqSize == 2
      && GetFreeSize(r.arena) == -1
      && !NoRoom(AsWritten, r.arena.value, 1000) && NoRoom(Fixed, r.arena.value, 1000)
      && DoAlloc(AsWritten, r.arena, 0x2008, 1000, false, env).result.Success?
      && DoAlloc(AsWritten, r.arena, 0x2008, 1000, false, env).arena.value.mapSize == 1099
      && DoAlloc(Fixed, r.arena, 0x2008, 1000, false, env).result == Failure(ENOMEM)
  {
  }

  /** cm_do_alloc gets past its checks: non-NULL arguments, room for the
      block, and the file extended when it is truncated at all. */
  predicate Proceeds(v: Variant, m: Option<Arena>, addr: u64, size: u64, env: Env)
  {
    m.Some? && addr != 0 && !NoRoom(v, m.value, size) && (Truncates(m.value) ==> env.truncOk)
  }

  /** cm_do_alloc: NULL arguments, the space check and ftruncate come
      first; the rest is `Place`. */
  function DoAlloc(v: Variant, m: Option<Arena>, addr: u64, size: u64, register: bool, env: Env): (r: Ret<u64>)
    ensures m.None? || addr == 0 ==> r == Ret(m, Failure(EFAULT))
    ensures m.Some? && addr != 0 && NoRoom(v, m.value, size) ==> r == Ret(m, Failure(ENOMEM))
    ensures m.Some? && addr != 0 && !NoRoom(v, m.value, size) && Truncates(m.value) && !env.truncOk ==>
      r == Ret(m, Failure(OsFailure))
    ensures r.arena.Some? <==> m.Some?
    ensures m.Some? && r.result.Failure? ==> r.arena.value == m.value.(fileSize := r.arena.value.fileSize)
    ensures !Proceeds(v, m, addr, size, env) ==> r.result.Failure? && r.arena == m
    ensures v == Fixed && r.result.Success? ==>
      && m.value.mapSize + size + m.value.list.vlqSize < m.value.length
      && r.arena.value.mapSize == m.value.mapSize + size
  {
    if m.None? || addr == 0 then Ret(m, Failure(EFAULT))
    else if NoRoom(v, m.value, size) then Ret(m, Failure(ENOMEM))
    else if Truncates(m.value) && !env.truncOk then Ret(m, Failure(OsFailure))
    else Place(m.value, addr, size, register, env)
  }

  /** The allocation proper, once the space check has passed and the file
      has been extended to map_size + size: the block is base + map_size;
      the first allocation records `addr` as the root, later ones register
      the slot when `register` is set; on a failed registration the file is
      truncated back and map_size is left alone. */
  function Place(a: Arena, addr: u64, size: u64, register: bool, env: Env): (r: Ret<u64>)
    requires addr != 0
    ensures r.arena.Some?
    ensures r.result.Success? <==>
      a.root == 0 || !register || Grow(a, addr, Wrap64(a.base + a.mapSize), size, env).result.Success?
    ensures r.result.Failure? ==> r.result.error == Grow(a, addr, Wrap64(a.base + a.mapSize), size, env).result.error
    ensures r.result.Failure? ==> r.arena.value == a.(fileSize := if Truncates(a) then a.mapSize else a.fileSize)
    ensures r.result.Success? ==> r.result.value == Wrap64(a.base + a.mapSize)
    ensures r.result.Success? ==> r.arena.value.mapSize == Wrap64(a.mapSize + size)
    ensures r.result.Success? ==> r.arena.value.root == if a.root == 0 then addr else a.root
    ensures r.result.Success? ==> LoadWord(r.arena.value.mem, addr) == Wrap64(a.base + a.mapSize)
    ensures r.result.Success? ==>
      forall x {:trigger ByteAt(r.arena.value.mem, x)} :: (x < addr || addr + POINTER_SIZE <= x) ==> ByteAt(r.arena.value.mem, x) == ByteAt(a.mem, x)
    ensures r.result.Success? ==>
      r.arena.value.fileSize == if Truncates(a) then Wrap64(a.mapSize + size) else a.fileSize
    ensures r.arena.value == a.(root := r.arena.value.root, mapSize := r.arena.value.mapSize, list := r.arena.value.list,
                                fileSize := r.arena.value.fileSize, mem := r.arena.value.mem)
    ensures r.result.Success? && a.root != 0 && register ==>
      r.arena.value.list == Append(a.base, a.list, addr, Wrap64(a.base + a.mapSize), size).value
    ensures r.result.Failure? || a.root == 0 || !register ==> r.arena.value.list == a.list
  {
    var a1 := if Truncates(a) then a.(fileSize := Wrap64(a.mapSize + size)) else a;
    var ptr := Wrap64(a.base + a.mapSize);
    var g := if a.root != 0 && register then Grow(a1, addr, ptr, size, env) else Outcome(a1, Success(()));
    if g.result.Failure? then
      // err: trunc_file(fd, map_size) with errno kept from cm_grow
      Ret(Some(if Truncates(a) then g.arena.(fileSize := a.mapSize) else g.arena), Failure(g.result.error))
    else
      // cm_grow leaves root, mem and map_size alone
      var root := if a.root == 0 then addr else a.root;
      Ret(Some(g.arena.(root := root, mem := StoreWord(a.mem, addr, ptr), mapSize := Wrap64(a.mapSize + size))),
          Success(ptr))
  }

  /** The allocation proper keeps the registry invariant; a registration
      appends the slot's offset, anything else leaves the slots alone. */
  lemma PlaceRegisters(a: Arena, addr: u64, size: u64, register: bool, env: Env)
    requires addr != 0
    requires Registered(a)
    requires a.list.vlqSize + 6 < TWO_64
    ensures Registered(Place(a, addr, size, register, env).arena.value)
    ensures Place(a, addr, size, register, env).result.Success? && a.root != 0 && register ==>
      Slots(Place(a, addr, size, register, env).arena.value) == Slots(a) + [addr - a.base]
    ensures Place(a, addr, size, register, env).result.Failure? || a.root == 0 || !register ==>
      Slots(Place(a, addr, size, register, env).arena.value) == Slots(a)
  {
    var r := Place(a, addr, size, register, env);
    var a' := r.arena.value;
    if r.result.Success? && a.root != 0 && register {
      AppendArena(a, a', addr, Wrap64(a.base + a.mapSize), size);
    } else {
      SameRegistry(a, a');
    }
  }

  lemma SameRegistry(a: Arena, a': Arena)
    requires Registered(a)
    requires a'.base == a.base && a'.list == a.list
    ensures Registered(a') && Slots(a') == Slots(a)
  {
  }

  /** cm_do_alloc keeps the registry invariant; a registering allocation
      appends the slot's offset, any other call leaves the slots alone. */
  lemma AllocRegisters(v: Variant, a: Arena, addr: u64, size: u64, register: bool, env: Env)
    requires Registered(a)
    requires a.list.vlqSize + 6 < TWO_64
    ensures var r := DoAlloc(v, Some(a), addr, size, register, env);
      && Registered(r.arena.value)
      && (r.result.Success? && a.root != 0 && register ==> Slots(r.arena.value) == Slots(a) + [addr - a.base])
      && (r.result.Failure? || a.root == 0 || !register ==> Slots(r.arena.value) == Slots(a))
  {
    if Proceeds(v, Some(a), addr, size, env) {
      PlaceRegisters(a, addr, size, register, env);
    }
  }

  // ---------------------------------------------------------------------
  // cm_affect_ptr
  // ---------------------------------------------------------------------

  /** The first node registered for slot `ptr`, searching from index `i`. */
  function FindSlot(nodes: seq<Node>, ptr: u64, i: nat): (r: Option<nat>)
    requires i <= |nodes|
    ensures r.Some? ==> i <= r.value < |nodes| && nodes[r.value].addr == ptr
    ensures r.Some? ==> forall j | i <= j < r.value :: nodes[j].addr != ptr
    ensures r.None? ==> forall j | i <= j < |nodes| :: nodes[j].addr != ptr
    decreases |nodes| - i
  {
    if i == |nodes| then None
    else if nodes[i].addr == ptr then Some(i)
    else FindSlot(nodes, ptr, i + 1)
  }

  /** `al->ptr = to` on the node at index `k`. */
  function Retarget(l: AddrList, k: int, to: u64): (r: AddrList)
    requires 0 <= k < |l.nodes|
  {
    l.(nodes := l.nodes[k := l.nodes[k].(ptr := to)])
  }

  predicate IsRegistered(l: AddrList, ptr: u64)
  {
    exists j | 0 <= j < |l.nodes| :: l.nodes[j].addr == ptr
  }

  /** cm_affect_ptr: stores `to` in the slot `ptr`, then records it. A slot
      already registered only has its recorded target replaced (in its first
      node); any other slot is registered with cm_grow, even for a NULL
      target. */
  function AffectPtr(m: Option<Arena>, ptr: u64, to: u64, env: Env): (r: Ret<()>)
    ensures m.None? || ptr == 0 ==> r == Ret(m, Failure(EFAULT))
    ensures r.arena.Some? <==> m.Some?
    ensures m.Some? && ptr != 0 ==>
      && LoadWord(r.arena.value.mem, ptr) == to
      && (forall x {:trigger ByteAt(r.arena.value.mem, x)} :: (x < ptr || ptr + POINTER_SIZE <= x) ==> ByteAt(r.arena.value.mem, x) == ByteAt(m.value.mem, x))
      && r.arena.value == m.value.(mem := r.arena.value.mem, list := r.arena.value.list)
    ensures m.Some? && ptr != 0 && IsRegistered(m.value.list, ptr) ==>
      && r.result.Success?
      && FindSlot(m.value.list.nodes, ptr, 0).Some?
      && r.arena.value.list == Retarget(m.value.list, FindSlot(m.value.list.nodes, ptr, 0).value, to)
    ensures m.Some? && ptr != 0 && !IsRegistered(m.value.list, ptr) ==>
      (r.result.Success? <==> env.mallocOk && Append(m.value.base, m.value.list, ptr, to, 0).Some?)
    ensures m.Some? && ptr != 0 && !IsRegistered(m.value.list, ptr) && r.result.Success? ==>
      r.arena.value.list == Append(m.value.base, m.value.list, ptr, to, 0).value
    ensures m.Some? && ptr != 0 && !IsRegistered(m.value.list, ptr) && r.result.Failure? ==>
      r.arena.value.list == m.value.list && r.result.error == if env.mallocOk then ERANGE else ENOMEM
  {
    if m.None? || ptr == 0 then Ret(m, Failure(EFAULT))
    else
      var a := m.value.(mem := StoreWord(m.value.mem, ptr, to));
      match FindSlot(a.list.nodes, ptr, 0)
      case Some(i) => Ret(Some(a.(list := Retarget(a.list, i, to))), Success(()))
      case None =>
        var g := Grow(a, ptr, to, 0, env);
        Ret(Some(g.arena), g.result)
  }

  /** cm_affect_ptr keeps the registry invariant; an unregistered slot is
      appended to the registered offsets when cm_grow succeeds, otherwise
      the slots stay as they were. */
  lemma AffectRegisters(a: Arena, ptr: u64, to: u64, env: Env)
    requires Registered(a)
    requires a.list.vlqSize + 6 < TWO_64
    requires ptr != 0
    ensures Registered(AffectPtr(Some(a), ptr, to, env).arena.value)
    ensures IsRegistered(a.list, ptr) || AffectPtr(Some(a), ptr, to, env).result.Failure? ==>
      Slots(AffectPtr(Some(a), ptr, to, env).arena.value) == Slots(a)
    ensures !IsRegistered(a.list, ptr) && AffectPtr(Some(a), ptr, to, env).result.Success? ==>
      Slots(AffectPtr(Some(a), ptr, to, env).arena.value) == Slots(a) + [ptr - a.base]
  {
    var r := AffectPtr(Some(a), ptr, to, env);
    var a' := r.arena.value;
    if IsRegistered(a.list, ptr) {
      RetargetArena(a, a', FindSlot(a.list.nodes, ptr, 0).value, to);
    } else if r.result.Success? {
      AppendArena(a, a', ptr, to, 0);
    } else {
      assert a' == a.(mem := a'.mem);
    }
  }

  lemma RetargetArena(a: Arena, a': Arena, k: int, to: u64)
    requires Registered(a)
    requires 0 <= k < |a.list.nodes|
    requires a'.base == a.base && a'.list == Retarget(a.list, k, to)
    ensures Registered(a') && Slots(a') == Slots(a)
  {
    RetargetKeeps(a.base, a.list, k, to);
  }

  lemma AppendArena(a: Arena, a': Arena, addr: u64, ptr: u64, len: u64)
    requires Registered(a)
    requires a.list.vlqSize + 6 < TWO_64
    requires Append(a.base, a.list, addr, ptr, len).Some?
    requires a'.base == a.base && a'.list == Append(a.base, a.list, addr, ptr, len).value
    ensures Registered(a') && Slots(a') == Slots(a) + [addr - a.base]
  {
    AppendRegisters(a.base, a.list, addr, ptr, len);
  }

  /** Changing a node's recorded target changes neither its delta, nor its
      encoding, nor its slot. */
  lemma RetargetKeeps(base: u64, l: AddrList, k: int, to: u64)
    requires Consistent(base, l)
    requires 0 <= k < |l.nodes|
    ensures Consistent(base, Retarget(l, k, to))
    ensures SlotsOf(base, Retarget(l, k, to).nodes) == SlotsOf(base, l.nodes)
  {
    RetargetFields(base, l, k, to);
  }

  lemma RetargetFields(base: u64, l: AddrList, k: int, to: u64)
    requires 0 <= k < |l.nodes|
    requires forall i | 0 <= i < |l.nodes| :: WellEncoded(l.nodes[i])
    ensures Deltas(Retarget(l, k, to).nodes) == Deltas(l.nodes)
    ensures SlotsOf(base, Retarget(l, k, to).nodes) == SlotsOf(base, l.nodes)
    ensures forall i | 0 <= i < |l.nodes| :: WellEncoded(Retarget(l, k, to).nodes[i])
  {
    var ns := Retarget(l, k, to).nodes;
    assert forall i | 0 <= i < |l.nodes| :: ns[i].offset == l.nodes[i].offset && ns[i].addr == l.nodes[i].addr && ns[i].vlq == l.nodes[i].vlq;
  }
}
