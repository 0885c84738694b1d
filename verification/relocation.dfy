/**
 recalculate_addr: after the mapping has moved from `oldBase` to `newBase` (its
 bytes moved with it), every pointer the registry knows about is translated
 by the coefficient newBase - oldBase: the root's contents, each recorded target
 that is not NULL, and each registered slot address; then each slot is
 rewritten with its (translated) target.

 The slot address of a node is a `void **`, so `al->addr += coeff` advances
 it by coeff pointers, i.e. 8 * coeff bytes, while the targets and the root's
 contents (`void *`) advance by coeff bytes. `AsWritten` keeps that stride,
 `Fixed` moves slot addresses by coeff bytes like everything else.
 */
module Relocation {
  import opened Machine
  import opened Distance
  import opened Vlq
  import opened Chain
  import opened Registry

  /** Bytes a slot address moves per unit of coefficient. */
  function Stride(v: Variant): nat
  {
    match v
    case AsWritten => POINTER_SIZE
    case Fixed => 1
  }

  /** One node after translation: the target moves unless it is NULL, the
      slot address moves by `Stride(v) * c`; delta and encoding are kept. */
  function Shifted(v: Variant, n: Node, c: int): (r: Node)
    ensures r.addr == Wrap64(n.addr + Stride(v) * c)
    ensures n.ptr == 0 ==> r.ptr == 0
    ensures n.ptr != 0 ==> r.ptr == Wrap64(n.ptr + c)
    ensures r.len == n.len && r.offset == n.offset && r.vlq == n.vlq
  {
    n.(addr := Wrap64(n.addr + Stride(v) * c), ptr := if n.ptr != 0 then Wrap64(n.ptr + c) else 0)
  }

  function ShiftAll(v: Variant, nodes: seq<Node>, c: int): (r: seq<Node>)
    ensures |r| == |nodes|
    ensures forall i | 0 <= i < |nodes| :: r[i] == Shifted(v, nodes[i], c)
  {
    seq(|nodes|, i requires 0 <= i < |nodes| => Shifted(v, nodes[i], c))
  }

  /** `*al->addr = al->ptr` for every node, in list order. */
  function WriteSlots(mem: Mem, ns: seq<Node>): Mem
    decreases |ns|
  {
    if ns == [] then mem else WriteSlots(StoreWord(mem, ns[0].addr, ns[0].ptr), ns[1..])
  }

  /** The root's contents after `*mem->root += coeff` (skipped for a NULL
      root). */
  function MoveRoot(mem: Mem, root: u64, c: int): (m': Mem)
    ensures root == 0 ==> m' == mem
    ensures root != 0 ==> LoadWord(m', root) == Wrap64(LoadWord(mem, root) + c)
    ensures forall x {:trigger ByteAt(m', x)} :: (x < root || root + POINTER_SIZE <= x) ==> ByteAt(m', x) == ByteAt(mem, x)
  {
    if root != 0 then StoreWord(mem, root, Wrap64(LoadWord(mem, root) + c)) else mem
  }

  /** recalculate_addr. The base is switched to `newBase` first, so the ERANGE
      failure (a distance that does not fit int64_t) leaves it switched and
      nothing else touched. */
  function RecalculateAddr(v: Variant, a: Arena, oldBase: u64, newBase: u64): (r: Outcome)
    ensures r.arena.base == newBase
    ensures r.result.Failure? <==> !(-INT64_MAX <= newBase - oldBase <= INT64_MAX)
    ensures r.result.Failure? ==> r.result.error == ERANGE && r.arena == a.(base := newBase)
    ensures r.arena.list.vlqSize == a.list.vlqSize && r.arena.list.vlqSum == a.list.vlqSum
    ensures r.arena == a.(base := newBase, list := r.arena.list, mem := r.arena.mem)
  {
    var a1 := a.(base := newBase);
    var coeff := Subptr64(newBase, oldBase, false);
    assert coeff.overflow <==> !(-INT64_MAX <= newBase - oldBase <= INT64_MAX);
    assert !coeff.overflow ==> coeff.value == newBase - oldBase;
    if coeff.overflow then Outcome(a1, Failure(ERANGE))
    else
      var c := coeff.value;
      assert c == newBase - oldBase;
      var ns := ShiftAll(v, a.list.nodes, c);
      Outcome(a1.(list := a.list.(nodes := ns), mem := WriteSlots(MoveRoot(a.mem, a.root, c), ns)), Success(()))
  }

  // ---------------------------------------------------------------------
  // The registry survives a move (Fixed)
  // ---------------------------------------------------------------------

  /** Every slot stays inside the address space when moved by `c`. */
  predicate SlotsMoveWithin(nodes: seq<Node>, c: int)
  {
    forall i | 0 <= i < |nodes| :: 0 <= nodes[i].addr + c < TWO_64
  }

  /** With unit stride every slot keeps its offset from the base: the
      deltas and encodings are untouched and the slots' offsets from the new
      base are their old offsets. */
  lemma ShiftFields(base: u64, nodes: seq<Node>, ns: seq<Node>, newBase: u64)
    requires forall i | 0 <= i < |nodes| :: WellEncoded(nodes[i])
    requires SlotsMoveWithin(nodes, newBase - base)
    requires ns == ShiftAll(Fixed, nodes, newBase - base)
    ensures Deltas(ns) == Deltas(nodes)
    ensures SlotsOf(newBase, ns) == SlotsOf(base, nodes)
    ensures forall i | 0 <= i < |ns| :: WellEncoded(ns[i])
  {
    assert forall i | 0 <= i < |nodes| ::
      ns[i].offset == nodes[i].offset && ns[i].vlq == nodes[i].vlq && ns[i].addr - newBase == nodes[i].addr - base;
  }

  /** A list with the same deltas, encodings and counters as a consistent
      one, whose slots sit at the same offsets from `newBase`, is consistent
      with `newBase`. */
  lemma ConsistentFrom(base: u64, l: AddrList, newBase: u64, l': AddrList)
    requires Consistent(base, l)
    requires Deltas(l'.nodes) == Deltas(l.nodes)
    requires SlotsOf(newBase, l'.nodes) == SlotsOf(base, l.nodes)
    requires forall i | 0 <= i < |l'.nodes| :: WellEncoded(l'.nodes[i])
    requires l'.vlqSize == l.vlqSize && l'.vlqSum == l.vlqSum
    ensures Consistent(newBase, l')
  {
  }

  /** The Fixed relocation from the arena's own base keeps the registry
      invariant and leaves the registered offsets as they were. */
  lemma RelocateRegisters(a: Arena, newBase: u64)
    requires Registered(a)
    requires -INT64_MAX <= newBase - a.base <= INT64_MAX
    requires SlotsMoveWithin(a.list.nodes, newBase - a.base)
    ensures RecalculateAddr(Fixed, a, a.base, newBase).result.Success?
    ensures Registered(RecalculateAddr(Fixed, a, a.base, newBase).arena)
    ensures Slots(RecalculateAddr(Fixed, a, a.base, newBase).arena) == Slots(a)
  {
    RecalculatedList(Fixed, a, a.base, newBase);
    ShiftedRegistered(a, newBase, RecalculateAddr(Fixed, a, a.base, newBase).arena);
  }

  /** An arena whose list is the registry translated (Fixed) to `newBase`
      is consistent with `newBase` and names the same offsets. */
  lemma ShiftedRegistered(a: Arena, newBase: u64, a': Arena)
    requires Registered(a)
    requires SlotsMoveWithin(a.list.nodes, newBase - a.base)
    requires a'.base == newBase && a'.list == a.list.(nodes := ShiftAll(Fixed, a.list.nodes, newBase - a.base))
    ensures Registered(a') && Slots(a') == Slots(a)
  {
    var ns := ShiftAll(Fixed, a.list.nodes, newBase - a.base);
    ShiftFields(a.base, a.list.nodes, ns, newBase);
    ConsistentFrom(a.base, a.list, newBase, a.list.(nodes := ns));
  }

  /** A successful relocation leaves the registry's list with its nodes
      translated and its counters. */
  lemma RecalculatedList(v: Variant, a: Arena, oldBase: u64, newBase: u64)
    requires -INT64_MAX <= newBase - oldBase <= INT64_MAX
    ensures RecalculateAddr(v, a, oldBase, newBase).result.Success?
    ensures RecalculateAddr(v, a, oldBase, newBase).arena.base == newBase
    ensures RecalculateAddr(v, a, oldBase, newBase).arena.list == a.list.(nodes := ShiftAll(v, a.list.nodes, newBase - oldBase))
    ensures RecalculateAddr(v, a, oldBase, newBase).arena.mem
         == WriteSlots(MoveRoot(a.mem, a.root, newBase - oldBase), ShiftAll(v, a.list.nodes, newBase - oldBase))
  {
  }

  // ---------------------------------------------------------------------
  // What the slots hold afterwards
  // ---------------------------------------------------------------------

  /** The word at `x` overlaps no slot word. */
  predicate OutsideWords(x: int, ns: seq<Node>)
  {
    forall i | 0 <= i < |ns| :: Apart(x, ns[i].addr)
  }

  lemma {:induction false} WriteSlotsFrame(mem: Mem, ns: seq<Node>, x: int)
    requires Outside(x, Addrs(ns))
    ensures ByteAt(WriteSlots(mem, ns), x) == ByteAt(mem, x)
    decreases |ns|
  {
    if ns != [] {
      assert Addrs(ns)[0] == ns[0].addr;
      var m1 := StoreWord(mem, ns[0].addr, ns[0].ptr);
      assert Outside(x, Addrs(ns[1..])) by {
        forall i | 0 <= i < |ns[1..]| ensures x < Addrs(ns[1..])[i] || Addrs(ns[1..])[i] + POINTER_SIZE <= x {
          assert ns[1..][i] == ns[i + 1];
          assert Addrs(ns)[i + 1] == ns[i + 1].addr;
        }
      }
      WriteSlotsFrame(m1, ns[1..], x);
    }
  }

  /** With disjoint slot words every slot ends up holding its own target. */
  lemma {:induction false} WriteSlotsHold(mem: Mem, ns: seq<Node>, i: int)
    requires AllApart(Addrs(ns))
    requires 0 <= i < |ns|
    ensures LoadWord(WriteSlots(mem, ns), ns[i].addr) == ns[i].ptr
    decreases |ns|
  {
    var m1 := StoreWord(mem, ns[0].addr, ns[0].ptr);
    assert AllApart(Addrs(ns[1..])) by {
      forall p, q | 0 <= p < q < |ns[1..]| ensures Apart(Addrs(ns[1..])[p], Addrs(ns[1..])[q]) {
        assert ns[1..][p] == ns[p + 1] && ns[1..][q] == ns[q + 1];
        assert Apart(Addrs(ns)[p + 1], Addrs(ns)[q + 1]);
      }
    }
    if i == 0 {
      forall x | ns[0].addr <= x < ns[0].addr + POINTER_SIZE
        ensures ByteAt(WriteSlots(m1, ns[1..]), x) == ByteAt(m1, x)
      {
        forall j | 0 <= j < |ns[1..]| ensures x < Addrs(ns[1..])[j] || Addrs(ns[1..])[j] + POINTER_SIZE <= x {
          assert ns[1..][j] == ns[j + 1];
          assert Apart(Addrs(ns)[0], Addrs(ns)[j + 1]);
        }
        WriteSlotsFrame(m1, ns[1..], x);
      }
      LoadWordFrame(m1, WriteSlots(m1, ns[1..]), ns[0].addr);
    } else {
      WriteSlotsHold(m1, ns[1..], i - 1);
      assert ns[1..][i - 1] == ns[i];
    }
  }

  /** After a successful relocation whose moved slot words are pairwise
      disjoint, each moved slot holds its node's translated target (see
      `Shifted`: NULL stays NULL, any other target moves by the
      coefficient). */
  lemma RelocatedSlots(v: Variant, a: Arena, oldBase: u64, newBase: u64, i: int)
    requires RecalculateAddr(v, a, oldBase, newBase).result.Success?
    requires AllApart(Addrs(ShiftAll(v, a.list.nodes, newBase - oldBase)))
    requires 0 <= i < |a.list.nodes|
    ensures LoadWord(RecalculateAddr(v, a, oldBase, newBase).arena.mem, ShiftAll(v, a.list.nodes, newBase - oldBase)[i].addr)
      == ShiftAll(v, a.list.nodes, newBase - oldBase)[i].ptr
  {
    var ns := ShiftAll(v, a.list.nodes, newBase - oldBase);
    var m1 := MoveRoot(a.mem, a.root, newBase - oldBase);
    RecalculatedList(v, a, oldBase, newBase);
    WriteSlotsHold(m1, ns, i);
  }

  /** The root's word, if it overlaps no slot word written after it, holds
      its old contents moved by the coefficient (the memory is the one
      RecalculateAddr leaves behind). */
  lemma RootMoved(mem: Mem, root: u64, c: int, ns: seq<Node>, mem': Mem)
    requires root != 0
    requires OutsideWords(root, ns)
    requires mem' == WriteSlots(MoveRoot(mem, root, c), ns)
    ensures LoadWord(mem', root) == Wrap64(LoadWord(mem, root) + c)
  {
    WordUntouched(MoveRoot(mem, root, c), ns, root);
  }

  /** A word that overlaps no slot word keeps its value. */
  lemma WordUntouched(mem: Mem, ns: seq<Node>, w: int)
    requires OutsideWords(w, ns)
    ensures LoadWord(WriteSlots(mem, ns), w) == LoadWord(mem, w)
  {
    forall x | w <= x < w + POINTER_SIZE ensures ByteAt(WriteSlots(mem, ns), x) == ByteAt(mem, x) {
      forall j | 0 <= j < |ns| ensures x < Addrs(ns)[j] || Addrs(ns)[j] + POINTER_SIZE <= x {
        assert Apart(w, ns[j].addr);
      }
      WriteSlotsFrame(mem, ns, x);
    }
    LoadWordFrame(mem, WriteSlots(mem, ns), w);
  }

  // ---------------------------------------------------------------------
  // The pointer stride (as written)
  // ---------------------------------------------------------------------

  /** As written, a slot at offset `s` from the old base ends up at offset
      s + 7 * (newBase - oldBase) from the new base (while no address wraps): every
      slot but those that do not move drifts away from the object it
      belonged to. */
  lemma StrideDrifts(a: Arena, newBase: u64, i: int)
    requires RecalculateAddr(AsWritten, a, a.base, newBase).result.Success?
    requires 0 <= i < |a.list.nodes|
    requires 0 <= a.list.nodes[i].addr + POINTER_SIZE * (newBase - a.base) < TWO_64
    ensures Slots(RecalculateAddr(AsWritten, a, a.base, newBase).arena)[i]
      == Slots(a)[i] + (POINTER_SIZE - 1) * (newBase - a.base)
  {
  }

  /** An arena of 0x1000 bytes mapped at 0x1000 with one slot, at its base,
      that the mapping moves away from to 0x2000. */
  const ONE_SLOT: Arena := Arena(-1, false, 0x1000, 0x1000, 0, 0, AddrList([Node(0x1000, 0, 0, 0, 0)], 1, 0), 0, map[])
  const MOVED_TO: u64 := 0x2000

  /** A concrete instance: the slot at the base of the mapping lands 0x7000
      bytes into the moved mapping instead of at its base. */
  lemma StrideCounterexample()
    ensures Registered(ONE_SLOT) && Slots(ONE_SLOT) == [0]
    ensures RecalculateAddr(AsWritten, ONE_SLOT, ONE_SLOT.base, MOVED_TO).result.Success?
    ensures |Slots(RecalculateAddr(AsWritten, ONE_SLOT, ONE_SLOT.base, MOVED_TO).arena)| == 1
    ensures Slots(RecalculateAddr(AsWritten, ONE_SLOT, ONE_SLOT.base, MOVED_TO).arena)[0] == 0x7000
  {
    OneSlotRegistered();
    StrideDrifts(ONE_SLOT, MOVED_TO, 0);
  }

  lemma OneSlotRegistered()
    ensures Registered(ONE_SLOT) && Slots(ONE_SLOT) == [0]
  {
    assert WriteVlq(0).word == 0;
  }
}
