/**
 cm_serialize: appends an area of vlq_size + 1 bytes to the arena (an
 unregistered allocation) and fills it from its top index downward with the
 encoded deltas in list order, each one read out of the node's vlq word
 most significant digit first, and a zero byte at the bottom.

 The byte order comes from the word layout: write_vlq leaves the most
 significant digit in the lowest byte of the word, reverse_vlq moves it to
 the top byte, and the copy loop reads the word's bytes from index 7 down.
 As written, the reversal sits inside the copy loop and writes the reversed
 word back into the node, so from the second byte on the loop reads the
 word un-reversed again.
 */
module Serial {
  import opened Machine
  import opened Vlq
  import opened Chain
  import opened Registry

  /** The bytes one node contributes, in the order they are written, and
      the node's vlq word afterwards. */
  datatype Emitted = Emitted(bytes: seq<byte>, vlq: bv64)

  /** The do-while copy loop on one node, reading the word through its byte
      view `vlq_c` from index `size` down: the byte is copied, and the loop
      goes on while it has 0x80 set. As written, `al->vlq =
      reverse_vlq(al->vlq)` runs before every copy, which reverses the view;
      the intended code copies from a view reversed once. Reading below
      index 0 is out of bounds (None). */
  function Copy(v: Variant, view: seq<byte>, size: int): (r: Option<seq<byte>>)
    requires |view| == 8 && size < 8
    ensures r.Some? ==> 1 <= |r.value| <= size + 1
    ensures r.Some? ==> !Continues(r.value[|r.value| - 1])
    decreases size + 1
  {
    if size < 0 then None
    else
      var view' := if v == AsWritten then Reverse(view) else view;
      var b := view'[size];
      if !Continues(b) then Some([b])
      else
        match Copy(v, view', size - 1)
        case None => None
        case Some(rest) => Some([b] + rest)
  }

  /** The copy loop on a node holding `vlq`. As written, the node's word is
      reversed once per copied byte, so it ends reversed after an odd number
      of bytes and restored after an even one (reverse_vlq is an
      involution). The intended code reverses into a local and leaves the
      node's word alone. */
  function CopyNode(v: Variant, vlq: bv64): (r: Option<Emitted>)
    ensures v == Fixed && r.Some? ==> r.value.vlq == vlq
  {
    match v
    case AsWritten =>
      (match Copy(AsWritten, ByteView(vlq), 7)
       case None => None
       case Some(bs) => Some(Emitted(bs, if |bs| % 2 == 1 then ReverseVlq(vlq) else vlq)))
    case Fixed =>
      match Copy(Fixed, ByteView(ReverseVlq(vlq)), 7)
      case None => None
      case Some(bs) => Some(Emitted(bs, vlq))
  }

  /** All bytes the outer loop copies, in list order, and the nodes with the
      vlq words the copy loop leaves in them. */
  datatype Emission = Emission(bytes: seq<byte>, nodes: seq<Node>)

  function CopyAll(v: Variant, nodes: seq<Node>): (r: Option<Emission>)
    ensures r.Some? ==> |r.value.nodes| == |nodes|
  {
    if nodes == [] then Some(Emission([], []))
    else
      match CopyNode(v, nodes[0].vlq)
      case None => None
      case Some(e) =>
        match CopyAll(v, nodes[1..])
        case None => None
        case Some(rest) => Some(Emission(e.bytes + rest.bytes, [nodes[0].(vlq := e.vlq)] + rest.nodes))
  }

  /** The area as it is stored: the zero byte at the lowest index written,
      then the copied bytes in reverse, so that the first copied byte lands
      on the top index. */
  function AreaBytes(bytes: seq<byte>): (r: seq<byte>)
    ensures |r| == |bytes| + 1 && r[0] == 0
    ensures forall j | 0 <= j < |bytes| :: r[|bytes| - j] == bytes[j]
  {
    if bytes == [] then [0] else AreaBytes(bytes[1..]) + [bytes[0]]
  }

  /** Memory read downward from `top` holds `bytes`: the byte at
      top - j is bytes[j]. */
  predicate ReadsDown(mem: Mem, top: int, bytes: seq<byte>)
  {
    forall j | 0 <= j < |bytes| :: ByteAt(mem, top - j) == bytes[j]
  }

  /** cm_serialize. `local` is the address of the function's local `vlq`,
      which cm_do_alloc records as the root when nothing was allocated yet;
      `flags` is passed to msync, which only runs on a file the arena may
      truncate. Copying more bytes than vlq_size runs the index below the
      area (Undefined). Without an arena the call fails with EFAULT;
      otherwise it returns the base or an error, and keeps the base and
      the registry's totals. SerializeLayout states what the intended copy
      leaves in the area. */
  function Serialize(v: Variant, m: Option<Arena>, local: u64, flags: int, env: Env): (r: Ret<u64>)
    ensures m.None? ==> r == Ret(None, Failure(EFAULT))
    ensures r.arena.Some? <==> m.Some?
    ensures r.result.Success? ==> r.result.value == m.value.base
    ensures m.Some? ==>
      && r.arena.value.base == m.value.base
      && r.arena.value.length == m.value.length
      && r.arena.value.list.vlqSize == m.value.list.vlqSize
      && r.arena.value.list.vlqSum == m.value.list.vlqSum
      && |r.arena.value.list.nodes| == |m.value.list.nodes|
  {
    if m.None? then Ret(None, Failure(EFAULT))
    else
      var alloc := DoAlloc(v, m, local, Wrap64(m.value.list.vlqSize + 1), false, env);
      if alloc.result.Failure? then alloc
      else Fill(v, alloc.arena.value, alloc.result.value, m.value.list.vlqSize, flags, env)
  }

  /** The rest of cm_serialize once the area at `area` is allocated: the
      copy loops from `area + index` down, the terminating zero byte, and
      msync. */
  function Fill(v: Variant, a: Arena, area: u64, index: u64, flags: int, env: Env): (r: Ret<u64>)
    ensures r.arena.Some?
    ensures r.result.Success? ==> r.result.value == a.base
    ensures r.arena.value == a.(list := r.arena.value.list, mem := r.arena.value.mem)
    ensures r.arena.value.list == a.list.(nodes := r.arena.value.list.nodes)
    ensures |r.arena.value.list.nodes| == |a.list.nodes|
  {
    match CopyAll(v, a.list.nodes)
    case None => Ret(Some(a), Failure(Undefined))
    case Some(em) =>
      if |em.bytes| > index then Ret(Some(a), Failure(Undefined))
      else
        var a' := a.(list := a.list.(nodes := em.nodes),
                     mem := Store(a.mem, area + index - |em.bytes|, AreaBytes(em.bytes)));
        if flags != 0 && Truncates(a') && !env.msyncOk then Ret(Some(a'), Failure(OsFailure))
        else Ret(Some(a'), Success(a'.base))
  }

  // ---------------------------------------------------------------------
  // The intended copy
  // ---------------------------------------------------------------------

  /** From a view whose bytes, read from index 7 down, spell `e`, the copy
      loop started at index 7 - k copies the rest of `e` and stops. */
  lemma {:induction false} CopyFixedFrom(view: seq<byte>, e: seq<byte>, k: nat)
    requires |view| == 8
    requires 1 <= |e| <= 8 && k < |e|
    requires forall i | 0 <= i < |e| :: view[7 - i] == e[i]
    requires !Continues(e[|e| - 1]) && forall i | 0 <= i < |e| - 1 :: Continues(e[i])
    ensures Copy(Fixed, view, 7 - k) == Some(e[k..])
    decreases |e| - k
  {
    assert view[7 - k] == e[k];
    if k < |e| - 1 {
      CopyFixedFrom(view, e, k + 1);
      assert e[k..] == [e[k]] + e[k + 1..];
    } else {
      assert e[k..] == [e[k]];
    }
  }

  /** The intended copy of a node writes exactly the encoding of its delta,
      most significant digit first, and leaves the node alone. */
  lemma CopyNodeFixed(n: Node)
    requires WellEncoded(n)
    ensures CopyNode(Fixed, n.vlq) == Some(Emitted(Encoding(n.offset), n.vlq))
  {
    ReversedView(n);
    CopyReversed(Encoding(n.offset));
  }

  /** Reversing a node's word turns its encoding around to the top of the
      view. */
  lemma ReversedView(n: Node)
    requires WellEncoded(n)
    ensures ByteView(ReverseVlq(n.vlq)) == Reverse(Encoding(n.offset) + Zeros(8 - |Encoding(n.offset)|))
  {
    WriteVlqLayout(n.offset);
    ReverseVlqView(n.vlq);
  }

  /** The copy loop on the reversed view of an encoding followed by zeros
      copies exactly the encoding. */
  lemma CopyReversed(e: seq<byte>)
    requires 1 <= |e| <= 8
    requires !Continues(e[|e| - 1]) && forall i | 0 <= i < |e| - 1 :: Continues(e[i])
    ensures Copy(Fixed, Reverse(e + Zeros(8 - |e|)), 7) == Some(e)
  {
    var view := Reverse(e + Zeros(8 - |e|));
    var padded := e + Zeros(8 - |e|);
    assert forall i | 0 <= i < |e| :: view[7 - i] == padded[i];
    CopyFixedFrom(view, e, 0);
  }

  /** The intended outer loop writes the encodings of all deltas in list
      order and leaves the list alone. */
  lemma {:induction false} CopyAllFixed(nodes: seq<Node>)
    requires forall i | 0 <= i < |nodes| :: WellEncoded(nodes[i])
    ensures AllValid(Deltas(nodes))
    ensures CopyAll(Fixed, nodes) == Some(Emission(TopDown(Deltas(nodes)), nodes))
  {
    if nodes != [] {
      CopyNodeFixed(nodes[0]);
      CopyAllFixed(nodes[1..]);
      DeltasTail(nodes);
      KeptNodes(nodes);
    }
  }

  lemma KeptNodes(nodes: seq<Node>)
    requires nodes != []
    ensures [nodes[0].(vlq := nodes[0].vlq)] + nodes[1..] == nodes
  {
  }

  /** The area cm_serialize asks for is an unregistered allocation: when
      it succeeds it starts at base + map_size, leaves the registry alone
      and changes no byte but the local `vlq`; the intended space check
      also leaves room for the area and the encodings. */
  lemma AreaAllocated(v: Variant, a: Arena, local: u64, env: Env, alloc: Ret<u64>)
    requires alloc == DoAlloc(v, Some(a), local, Wrap64(a.list.vlqSize + 1), false, env)
    requires alloc.result.Success?
    ensures alloc.result.value == Wrap64(a.base + a.mapSize)
    ensures alloc.arena.value.list == a.list && alloc.arena.value.base == a.base
    ensures Truncates(alloc.arena.value) == Truncates(a)
    ensures forall x {:trigger ByteAt(alloc.arena.value.mem, x)} ::
      (x < local || local + POINTER_SIZE <= x) ==> ByteAt(alloc.arena.value.mem, x) == ByteAt(a.mem, x)
    ensures v == Fixed ==>
      && a.mapSize + 2 * a.list.vlqSize + 1 < a.length
      && alloc.arena.value.mapSize == a.mapSize + a.list.vlqSize + 1
  {
  }

  /** On a list of well-encoded nodes whose vlq_size is the length of
      their encodings, the intended fill keeps the list, stores the
      encodings with their terminating zero at the bottom of the area, and
      fails only when msync does. */
  lemma FillFixed(a: Arena, area: u64, flags: int, env: Env)
    requires Encodes(a.list)
    ensures Fill(Fixed, a, area, a.list.vlqSize, flags, env).arena.value.list == a.list
    ensures Fill(Fixed, a, area, a.list.vlqSize, flags, env).arena.value.mem ==
              Store(a.mem, area, AreaBytes(TopDown(Deltas(a.list.nodes))))
    ensures Fill(Fixed, a, area, a.list.vlqSize, flags, env).result ==
              (if flags != 0 && Truncates(a) && !env.msyncOk then Failure(OsFailure) else Success(a.base))
  {
    CopyAllFixed(a.list.nodes);
    var bytes := TopDown(Deltas(a.list.nodes));
    var a' := a.(mem := Store(a.mem, area, AreaBytes(bytes)));
    assert a.list.(nodes := a.list.nodes) == a.list;
    assert Truncates(a') == Truncates(a);
    assert Fill(Fixed, a, area, a.list.vlqSize, flags, env).arena.value == a';
  }

  /** Storing the area bytes at `area` puts the zero at `area` and the
      bytes downward from `area + |bytes|`. */
  lemma AreaLayout(mem: Mem, area: int, bytes: seq<byte>)
    ensures ByteAt(Store(mem, area, AreaBytes(bytes)), area) == 0
    ensures ReadsDown(Store(mem, area, AreaBytes(bytes)), area + |bytes|, bytes)
  {
    var stored := Store(mem, area, AreaBytes(bytes));
    forall j | 0 <= j < |bytes| ensures ByteAt(stored, area + |bytes| - j) == bytes[j] {
      assert AreaBytes(bytes)[|bytes| - j] == bytes[j];
    }
  }

  /** The intended fill of an area for a consistent list writes the
      encodings downward from the top of the area and the zero byte at its
      bottom. */
  lemma FillLayout(a: Arena, area: u64, flags: int, env: Env)
    requires Encodes(a.list)
    ensures ByteAt(Fill(Fixed, a, area, a.list.vlqSize, flags, env).arena.value.mem, area) == 0
    ensures ReadsDown(Fill(Fixed, a, area, a.list.vlqSize, flags, env).arena.value.mem, area + a.list.vlqSize,
                      TopDown(Deltas(a.list.nodes)))
  {
    FillFixed(a, area, flags, env);
    AreaLayout(a.mem, area, TopDown(Deltas(a.list.nodes)));
  }

  /** What the intended cm_serialize leaves behind, for a registry `a`,
      the local `vlq` at `local` and the call's result `r`: the list is
      left as it was, map_size has grown by vlq_size + 1 bytes, the area at
      the old base + map_size has a zero bottom byte and above it, read
      downward, the encodings of the deltas in list order; no other byte
      has changed except the local `vlq` that receives the area's address,
      and the call returns the base unless msync fails. */
  ghost predicate Serialized(a: Arena, local: u64, flags: int, env: Env, r: Ret<u64>)
  {
    var area := Wrap64(a.base + a.mapSize);
    && AllValid(Deltas(a.list.nodes))
    && r.arena.Some?
    && r.arena.value.list == a.list
    && r.arena.value.mapSize == a.mapSize + a.list.vlqSize + 1
    && r.result == (if flags != 0 && Truncates(a) && !env.msyncOk then Failure(OsFailure) else Success(a.base))
    && ByteAt(r.arena.value.mem, area) == 0
    && ReadsDown(r.arena.value.mem, area + a.list.vlqSize, TopDown(Deltas(a.list.nodes)))
    && forall x {:trigger ByteAt(r.arena.value.mem, x)} ::
      && (x < area || area + a.list.vlqSize + 1 <= x)
      && (x < local || local + POINTER_SIZE <= x)
      ==> ByteAt(r.arena.value.mem, x) == ByteAt(a.mem, x)
  }

  /** Intended behaviour of cm_serialize on a consistent registry, once
      the space check has passed and the area at base + map_size is
      allocated: the area and the vlq_size bytes it needs fit below the
      length, and the call leaves the arena as `Serialized` describes. */
  lemma SerializeLayout(a: Arena, local: u64, flags: int, env: Env, r: Ret<u64>)
    requires Registered(a)
    requires DoAlloc(Fixed, Some(a), local, Wrap64(a.list.vlqSize + 1), false, env).result.Success?
    requires r == Serialize(Fixed, Some(a), local, flags, env)
    ensures a.mapSize + 2 * a.list.vlqSize + 1 < a.length
    ensures Serialized(a, local, flags, env, r)
  {
    var alloc := DoAlloc(Fixed, Some(a), local, Wrap64(a.list.vlqSize + 1), false, env);
    AreaAllocated(Fixed, a, local, env, alloc);
    SerializeFills(Some(a), local, flags, env);
    FilledArea(a, local, alloc.arena.value, flags, env, r);
  }

  /** The intended cm_serialize is the fill of the area that cm_do_alloc
      returns, in the arena it leaves. */
  lemma SerializeFills(m: Option<Arena>, local: u64, flags: int, env: Env)
    requires m.Some?
    requires DoAlloc(Fixed, m, local, Wrap64(m.value.list.vlqSize + 1), false, env).result.Success?
    ensures Serialize(Fixed, m, local, flags, env) ==
              Fill(Fixed, DoAlloc(Fixed, m, local, Wrap64(m.value.list.vlqSize + 1), false, env).arena.value,
                   DoAlloc(Fixed, m, local, Wrap64(m.value.list.vlqSize + 1), false, env).result.value,
                   m.value.list.vlqSize, flags, env)
  {
  }

  /** The arena `b` that the allocation of the area leaves: the list, the
      base and the truncation mode of `a`, map_size grown by vlq_size + 1,
      and no byte changed except the local `vlq` at `local`. */
  ghost predicate Allocated(a: Arena, local: u64, b: Arena)
  {
    && b.list == a.list && b.base == a.base && Truncates(b) == Truncates(a)
    && b.mapSize == a.mapSize + a.list.vlqSize + 1
    && forall x {:trigger ByteAt(b.mem, x)} ::
      (x < local || local + POINTER_SIZE <= x) ==> ByteAt(b.mem, x) == ByteAt(a.mem, x)
  }

  /** The fill of the area at base + map_size in the arena `b` that the
      allocation of the area leaves. */
  lemma FilledArea(a: Arena, local: u64, b: Arena, flags: int, env: Env, r: Ret<u64>)
    requires Registered(a) && Allocated(a, local, b)
    requires r == Fill(Fixed, b, Wrap64(a.base + a.mapSize), a.list.vlqSize, flags, env)
    ensures Serialized(a, local, flags, env, r)
  {
    var area := Wrap64(a.base + a.mapSize);
    RegisteredEncodes(a);
    SameEncodes(a.list, b.list);
    SameFill(a, b, area, flags, env, r);
    FillFixed(b, area, flags, env);
    StoredArea(a, local, b, area, r.arena.value.mem);
  }

  lemma RegisteredEncodes(a: Arena)
    requires Registered(a)
    ensures Encodes(a.list)
  {
  }

  lemma SameEncodes(l: AddrList, l': AddrList)
    requires l' == l && Encodes(l)
    ensures Encodes(l')
  {
  }

  lemma SameFill(a: Arena, b: Arena, area: u64, flags: int, env: Env, r: Ret<u64>)
    requires b.list == a.list
    requires r == Fill(Fixed, b, area, a.list.vlqSize, flags, env)
    ensures r == Fill(Fixed, b, area, b.list.vlqSize, flags, env)
  {
  }

  /** Storing the area for the list of `b` into the memory of `b`, which
      differs from that of `a` only in the local `vlq`, gives the zero at
      `area`, the encodings of the list of `a` downward from the top of
      the area, and the bytes of `a` everywhere else but the local. */
  lemma StoredArea(a: Arena, local: u64, b: Arena, area: int, m: Mem)
    requires Encodes(a.list) && Allocated(a, local, b)
    requires m == Store(b.mem, area, AreaBytes(TopDown(Deltas(b.list.nodes))))
    ensures ByteAt(m, area) == 0
    ensures ReadsDown(m, area + a.list.vlqSize, TopDown(Deltas(a.list.nodes)))
    ensures forall x {:trigger ByteAt(m, x)} ::
      && (x < area || area + a.list.vlqSize + 1 <= x)
      && (x < local || local + POINTER_SIZE <= x)
      ==> ByteAt(m, x) == ByteAt(a.mem, x)
  {
    AreaLayout(b.mem, area, TopDown(Deltas(b.list.nodes)));
  }

  // ---------------------------------------------------------------------
  // The copy as written
  // ---------------------------------------------------------------------

  /** As written, a node whose delta takes two bytes or more yields its top
      digit and then a zero byte read from the view reversed back, and the
      node keeps its word. */
  lemma CopyAsWrittenMulti(n: Node)
    requires WellEncoded(n)
    requires |Encoding(n.offset)| >= 2
    ensures CopyNode(AsWritten, n.vlq) == Some(Emitted([Encoding(n.offset)[0], 0], n.vlq))
  {
    WriteVlqLayout(n.offset);
    CopyTwice(ByteView(n.vlq));
  }

  /** As written, the loop copies byte 0 of the view from the reversed view,
      and, if that byte continues, byte 6 from the view reversed back. */
  lemma CopyTwice(view: seq<byte>)
    requires |view| == 8 && Continues(view[0]) && !Continues(view[6])
    ensures Copy(AsWritten, view, 7) == Some([view[0], view[6]])
  {
    var rv := Reverse(view);
    assert rv[7] == view[0];
    ReverseReverse(view);
    assert Reverse(rv)[6] == view[6];
    assert Copy(AsWritten, rv, 6) == Some([view[6]]);
    assert [view[0]] + [view[6]] == [view[0], view[6]];
  }

  /** As written, a one-byte delta is copied correctly but its node is left
      holding the reversed word; copying that node again yields a zero byte,
      a delta of zero to the reader, and restores the word. */
  lemma CopyAsWrittenSingle(n: Node)
    requires WellEncoded(n)
    requires |Encoding(n.offset)| == 1
    ensures CopyNode(AsWritten, n.vlq) == Some(Emitted(Encoding(n.offset), ReverseVlq(n.vlq)))
    ensures CopyNode(AsWritten, ReverseVlq(n.vlq)) == Some(Emitted([0], n.vlq))
  {
    WriteVlqLayout(n.offset);
    ReverseVlqInvolution(n.vlq);
    ReverseVlqView(n.vlq);
    CopyOnce(ByteView(n.vlq));
    assert Encoding(n.offset) == [ByteView(n.vlq)[0]];
  }

  /** The nodes with their vlq words byte-swapped. */
  function ReversedWords(nodes: seq<Node>): (r: seq<Node>)
    ensures |r| == |nodes|
    ensures forall i | 0 <= i < |nodes| :: r[i] == nodes[i].(vlq := ReverseVlq(nodes[i].vlq))
  {
    seq(|nodes|, i requires 0 <= i < |nodes| => nodes[i].(vlq := ReverseVlq(nodes[i].vlq)))
  }

  /** Every delta of the list fits one digit, so its encoding is one byte. */
  predicate SingleDigits(nodes: seq<Node>)
  {
    forall i | 0 <= i < |nodes| :: WellEncoded(nodes[i]) && Magnitude(nodes[i].offset) < 64
  }

  /** As written, on a list whose deltas all fit one digit, the outer loop
      copies the encodings correctly, but leaves every node holding its
      word byte-swapped. */
  lemma {:induction false} CopyAllAsWrittenSingles(nodes: seq<Node>)
    requires SingleDigits(nodes)
    ensures AllValid(Deltas(nodes))
    ensures CopyAll(AsWritten, nodes) == Some(Emission(TopDown(Deltas(nodes)), ReversedWords(nodes)))
  {
    if nodes != [] {
      SingleDigitsTail(nodes);
      CopyAsWrittenSingle(nodes[0]);
      CopyAllAsWrittenSingles(nodes[1..]);
      CopyAllCons(AsWritten, nodes, Emitted(Encoding(nodes[0].offset), ReverseVlq(nodes[0].vlq)),
                  Emission(TopDown(Deltas(nodes[1..])), ReversedWords(nodes[1..])));
      ReversedWordsCons(nodes);
      TopDownCons(nodes);
    }
  }

  /** As written, copying such a list a second time, from the swapped
      words, yields one zero byte per node (a chain of zero deltas to the
      reader) and swaps the words back. */
  lemma {:induction false} CopyAllAsWrittenAgain(nodes: seq<Node>)
    requires SingleDigits(nodes)
    ensures CopyAll(AsWritten, ReversedWords(nodes)) == Some(Emission(Zeros(|nodes|), nodes))
  {
    if nodes != [] {
      SingleDigitsTail(nodes);
      CopyAsWrittenSingle(nodes[0]);
      CopyAllAsWrittenAgain(nodes[1..]);
      var rw := ReversedWords(nodes);
      ReversedWordsCons(nodes);
      CopyAllCons(AsWritten, rw, Emitted([0], nodes[0].vlq), Emission(Zeros(|nodes| - 1), nodes[1..]));
      RestoredCons(nodes, rw);
    }
  }

  /** One turn of the outer loop: the first node's bytes, then the rest's. */
  lemma CopyAllCons(v: Variant, nodes: seq<Node>, e: Emitted, rest: Emission)
    requires nodes != []
    requires CopyNode(v, nodes[0].vlq) == Some(e)
    requires CopyAll(v, nodes[1..]) == Some(rest)
    ensures CopyAll(v, nodes) == Some(Emission(e.bytes + rest.bytes, [nodes[0].(vlq := e.vlq)] + rest.nodes))
  {
  }

  lemma SingleDigitsTail(nodes: seq<Node>)
    requires nodes != [] && SingleDigits(nodes)
    ensures WellEncoded(nodes[0]) && |Encoding(nodes[0].offset)| == 1
    ensures SingleDigits(nodes[1..])
  {
    assert forall i | 0 <= i < |nodes| - 1 :: nodes[1..][i] == nodes[i + 1];
  }

  lemma ReversedWordsCons(nodes: seq<Node>)
    requires nodes != []
    ensures ReversedWords(nodes)[0] == nodes[0].(vlq := ReverseVlq(nodes[0].vlq))
    ensures ReversedWords(nodes)[1..] == ReversedWords(nodes[1..])
    ensures ReversedWords(nodes) == [nodes[0].(vlq := ReverseVlq(nodes[0].vlq))] + ReversedWords(nodes[1..])
  {
  }

  lemma TopDownCons(nodes: seq<Node>)
    requires nodes != [] && AllValid(Deltas(nodes))
    ensures AllValid(Deltas(nodes[1..]))
    ensures TopDown(Deltas(nodes)) == Encoding(nodes[0].offset) + TopDown(Deltas(nodes[1..]))
  {
    DeltasTail(nodes);
  }

  lemma RestoredCons(nodes: seq<Node>, rw: seq<Node>)
    requires nodes != [] && rw == ReversedWords(nodes)
    ensures [0] + Zeros(|nodes| - 1) == Zeros(|nodes|)
    ensures [rw[0].(vlq := nodes[0].vlq)] + nodes[1..] == nodes
  {
  }

  /** As written, a view whose byte 0 ends an encoding yields that byte,
      and its reversal yields byte 7. */
  lemma CopyOnce(view: seq<byte>)
    requires |view| == 8 && !Continues(view[0]) && !Continues(view[7])
    ensures Copy(AsWritten, view, 7) == Some([view[0]])
    ensures Copy(AsWritten, Reverse(view), 7) == Some([view[7]])
  {
    assert Reverse(view)[7] == view[0];
    ReverseReverse(view);
  }

  lemma {:induction false} ReverseReverse(s: seq<byte>)
    ensures Reverse(Reverse(s)) == s
  {
    assert forall i | 0 <= i < |s| :: Reverse(Reverse(s))[i] == Reverse(s)[|s| - 1 - i];
  }
}
