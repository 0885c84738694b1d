/**
 cm_do_deserialize: the relocation of a serialized arena that has been
 mapped at a new address. The data is the `data_size` bytes from `*addr`
 on, modelled as the byte string `blob` (offsets into it are offsets from
 the new start). The encoded deltas are read from the last byte downward;
 the first one leads from the start to the first registered slot, whose
 word, less `object_size`, is taken to be the old base. Every slot reached
 is then moved by the distance between the new and the old base, unless it
 holds NULL, until a zero delta ends the walk.
 */
module Deserial {
  import opened Machine
  import opened Distance
  import opened Vlq
  import opened Chain

  /** The data after the walk and the offsets of the slots it fixed, in the
      order it fixed them. */
  datatype Walked = Walked(blob: seq<byte>, visited: seq<int>)

  /** The pointer-sized slot at `pos` lies inside the data. */
  predicate InData(blob: seq<byte>, pos: int)
  {
    0 <= pos && pos + POINTER_SIZE <= |blob|
  }

  /** The relocation of one stored pointer: NULL stays NULL, anything else
      moves by `coeff` in uintptr_t arithmetic. */
  function Moved(w: u64, coeff: i64): (r: u64)
    ensures w == 0 ==> r == 0
    ensures w != 0 ==> r == w + coeff || r == w + coeff - TWO_64 || r == w + coeff + TWO_64
  {
    if w == 0 then 0
    else
      var sum := w + coeff;
      if sum < 0 then sum + TWO_64 else if sum < TWO_64 then sum else sum - TWO_64
  }

  /** The written-out wrap is addition modulo 2^64. */
  lemma MovedWraps(w: u64, coeff: i64)
    ensures w != 0 ==> Moved(w, coeff) == Wrap64(w + coeff)
  {
  }

  /** `*slot += *slot ? coeff : 0` on the slot at `pos`; FixSlotEffect
      states what it does. */
  function FixSlot(blob: seq<byte>, pos: int, coeff: i64): (r: seq<byte>)
    requires InData(blob, pos)
    ensures |r| == |blob|
  {
    var w := WordAt(blob, pos);
    if w == 0 then blob else PutWord(blob, pos, Moved(w, coeff))
  }

  /** Fixing a slot moves the pointer it holds and no other byte. */
  lemma FixSlotEffect(blob: seq<byte>, pos: int, coeff: i64)
    requires InData(blob, pos)
    ensures WordAt(FixSlot(blob, pos, coeff), pos) == Moved(WordAt(blob, pos), coeff)
    ensures forall i | 0 <= i < |blob| && (i < pos || pos + POINTER_SIZE <= i) :: FixSlot(blob, pos, coeff)[i] == blob[i]
  {
    var w := WordAt(blob, pos);
    if w != 0 {
      PutWordEffect(blob, pos, Moved(w, coeff));
    }
  }

  /** The loop of cm_do_deserialize from the slot at `pos` on: fix that
      slot, then go on with the next delta. */
  function Walk(blob: seq<byte>, vp: int, pos: int, coeff: i64): (r: Result<Walked>)
    requires InData(blob, pos)
    ensures r.Failure? ==> r.error == Undefined
    ensures r.Success? ==> |r.value.blob| == |blob|
    decreases vp + 1, 1
  {
    Next(FixSlot(blob, pos, coeff), vp, pos, coeff)
  }

  /** The rest of one turn of the loop, on data whose slot at `pos` is
      already fixed: read the delta whose top byte is at `vp`, stop on zero,
      otherwise step to the next slot and walk on from there, below the
      bytes just read. Reading outside the data, an undecodable delta and a
      slot outside the data are undefined behaviour. */
  function Next(blob: seq<byte>, vp: int, pos: int, coeff: i64): (r: Result<Walked>)
    ensures r.Failure? ==> r.error == Undefined
    ensures r.Success? ==> |r.value.blob| == |blob|
    decreases vp + 1, 0
  {
    if !(0 <= vp < |blob|) then Failure(Undefined)
    else
      match ReadVlq(blob, vp)
      case None => Failure(Undefined)
      case Some(d) =>
        if d.offset == 0 then Success(Walked(blob, [pos]))
        else
          var next := pos + d.offset;
          if !InData(blob, next) then Failure(Undefined)
          else
            match Walk(blob, vp - d.len, next, coeff)
            case Failure(e) => Failure(e)
            case Success(w) => Success(Walked(w.blob, [pos] + w.visited))
  }

  /** cm_do_deserialize on the data `blob` now mapped at `start`, for a root
      object of `objectSize` bytes. The first delta is taken as a slot even
      when it is zero. */
  function Deserialize(blob: seq<byte>, start: u64, objectSize: u64): (r: Result<Walked>)
    ensures |blob| == 0 ==> r == Failure(Undefined)
    ensures r.Success? ==> |r.value.blob| == |blob|
    ensures r.Failure? ==> r.error == ERANGE || r.error == Undefined
  {
    var vp := |blob| - 1;
    if vp < 0 then Failure(Undefined)
    else
      match ReadVlq(blob, vp)
      case None => Failure(Undefined)
      case Some(d) =>
        var first := d.offset;
        if !InData(blob, first) then Failure(Undefined)
        else
          var coeff := Coefficient(blob, first, start, objectSize);
          if coeff.overflow then Failure(ERANGE)
          else if coeff.value == 0 then Success(Walked(blob, []))
          else Walk(blob, vp - d.len, first, coeff.value)
  }

  /** The distance every pointer is moved by: from the old base, taken to
      be the word in the first slot less `objectSize`, to `start`, flagged
      when it does not fit int64. */
  function Coefficient(blob: seq<byte>, first: int, start: u64, objectSize: u64): (c: Flagged)
    requires InData(blob, first)
    ensures c.overflow <==> !(-INT64_MAX <= start - Sub64(WordAt(blob, first), objectSize) <= INT64_MAX)
    ensures !c.overflow ==> c.value == start - Sub64(WordAt(blob, first), objectSize)
  {
    Subptr64(start, Sub64(WordAt(blob, first), objectSize), false)
  }

  // ---------------------------------------------------------------------
  // Reference: fixing a list of slots
  // ---------------------------------------------------------------------

  predicate AllInData(blob: seq<byte>, ps: seq<int>)
  {
    forall k | 0 <= k < |ps| :: InData(blob, ps[k])
  }

  /** Each slot of `ps` fixed in turn. */
  function FixAll(blob: seq<byte>, ps: seq<int>, coeff: i64): (r: seq<byte>)
    requires AllInData(blob, ps)
    ensures |r| == |blob|
    decreases ps
  {
    if ps == [] then blob else FixAll(FixSlot(blob, ps[0], coeff), ps[1..], coeff)
  }

  /** Fixing slots leaves every byte outside them alone. */
  lemma {:induction false} FixAllFrame(blob: seq<byte>, ps: seq<int>, coeff: i64, i: int)
    requires AllInData(blob, ps)
    requires 0 <= i < |blob| && Outside(i, ps)
    ensures FixAll(blob, ps, coeff)[i] == blob[i]
    decreases ps
  {
    if ps != [] {
      var b1 := FixSlot(blob, ps[0], coeff);
      FixSlotEffect(blob, ps[0], coeff);
      assert Outside(i, ps[1..]) by {
        forall k | 0 <= k < |ps| - 1 ensures i < ps[1..][k] || ps[1..][k] + POINTER_SIZE <= i {
          assert ps[1..][k] == ps[k + 1];
        }
      }
      assert AllInData(b1, ps[1..]) by {
        forall k | 0 <= k < |ps| - 1 ensures InData(b1, ps[1..][k]) {
          assert ps[1..][k] == ps[k + 1];
        }
      }
      FixAllFrame(b1, ps[1..], coeff, i);
    }
  }

  /** A word all of whose bytes are kept reads the same. */
  lemma WordKept(blob: seq<byte>, blob': seq<byte>, pos: int)
    requires InData(blob, pos) && |blob'| == |blob|
    requires forall i | pos <= i < pos + POINTER_SIZE :: blob'[i] == blob[i]
    ensures WordAt(blob', pos) == WordAt(blob, pos)
  {
    var bs := blob[pos..pos + POINTER_SIZE];
    ValueAtSpelled(blob, pos, bs);
    ValueAtSpelled(blob', pos, bs);
  }

  /** With slot words apart, fixing all of them moves each one's pointer
      exactly once. */
  lemma {:induction false} FixAllMoves(blob: seq<byte>, ps: seq<int>, coeff: i64, k: int)
    requires AllInData(blob, ps) && AllApart(ps)
    requires 0 <= k < |ps|
    ensures WordAt(FixAll(blob, ps, coeff), ps[k]) == Moved(WordAt(blob, ps[k]), coeff)
    decreases ps
  {
    var b1 := FixSlot(blob, ps[0], coeff);
    FixSlotEffect(blob, ps[0], coeff);
    var rest := ps[1..];
    assert AllInData(b1, rest) by {
      forall j | 0 <= j < |rest| ensures InData(b1, rest[j]) {
        assert rest[j] == ps[j + 1];
      }
    }
    assert AllApart(rest) by {
      forall j, l | 0 <= j < l < |rest| ensures Apart(rest[j], rest[l]) {
        assert rest[j] == ps[j + 1] && rest[l] == ps[l + 1];
      }
    }
    if k == 0 {
      forall i | ps[0] <= i < ps[0] + POINTER_SIZE
        ensures FixAll(b1, rest, coeff)[i] == b1[i]
      {
        assert Outside(i, rest) by {
          forall j | 0 <= j < |rest| ensures i < rest[j] || rest[j] + POINTER_SIZE <= i {
            assert rest[j] == ps[j + 1];
            assert Apart(ps[0], ps[j + 1]);
          }
        }
        FixAllFrame(b1, rest, coeff, i);
      }
      WordKept(b1, FixAll(b1, rest, coeff), ps[0]);
    } else {
      FixAllMoves(b1, rest, coeff, k - 1);
      assert rest[k - 1] == ps[k];
      forall i | ps[k] <= i < ps[k] + POINTER_SIZE ensures b1[i] == blob[i] {
      }
      WordKept(blob, b1, ps[k]);
    }
  }

  // ---------------------------------------------------------------------
  // The walk over a serialized chain
  // ---------------------------------------------------------------------

  /** `bytes` are found in `blob` from index `top` downward. */
  predicate Spells(blob: seq<byte>, top: int, bytes: seq<byte>)
  {
    |bytes| - 1 <= top < |blob| && forall i | 0 <= i < |bytes| :: blob[top - i] == bytes[i]
  }

  /** Every position of `ps` holds a slot word that ends at or below
      `floor`. */
  predicate Below(ps: seq<int>, floor: int)
  {
    forall k | 0 <= k < |ps| :: 0 <= ps[k] && ps[k] + POINTER_SIZE <= floor
  }

  /** The bytes below the first encoding of a terminated chain spell the
      rest of it. */
  lemma SpellsRest(blob: seq<byte>, top: int, ds: seq<int>)
    requires ds != [] && AllValid(ds)
    requires Spells(blob, top, TopDown(ds) + [0])
    ensures AllValid(ds[1..])
    ensures |TopDown(ds)| == |Encoding(ds[0])| + |TopDown(ds[1..])|
    ensures Spells(blob, top, Encoding(ds[0]))
    ensures Spells(blob, top - |Encoding(ds[0])|, TopDown(ds[1..]) + [0])
  {
    assert TopDown(ds) == Encoding(ds[0]) + TopDown(ds[1..]);
    SpellsSplit(blob, top, Encoding(ds[0]), TopDown(ds[1..]));
  }

  /** A terminated string spelled downward from `top` splits into its
      first part and the terminated rest below it. */
  lemma SpellsSplit(blob: seq<byte>, top: int, a: seq<byte>, b: seq<byte>)
    requires Spells(blob, top, a + b + [0])
    ensures Spells(blob, top, a)
    ensures Spells(blob, top - |a|, b + [0])
  {
    var all := a + b + [0];
    forall i | 0 <= i < |a| ensures blob[top - i] == a[i] {
      assert all[i] == a[i];
    }
    forall i | 0 <= i < |b| + 1 ensures blob[top - |a| - i] == (b + [0])[i] {
      assert all[|a| + i] == (b + [0])[i];
    }
  }

  /** A chain's terminating zero byte reads as the delta 0. */
  lemma ReadZero(blob: seq<byte>, top: int)
    requires 0 <= top < |blob| && blob[top] == 0
    ensures ReadVlq(blob, top).Some? && ReadVlq(blob, top).value.offset == 0
  {
    assert Encoding(0) == [0];
    ReadWriteVlq(blob, top, 0);
  }

  /** An encoding spelled downward from `top` reads back as its delta. */
  lemma ReadSpelled(blob: seq<byte>, top: int, d: int)
    requires ValidOffset(d) && Spells(blob, top, Encoding(d))
    ensures ReadVlq(blob, top) == Some(Decoded(d, |Encoding(d)|))
  {
    ReadWriteVlq(blob, top, d);
  }

  /** Fixing a slot below the spelled bytes keeps them. */
  lemma FixKeepsSpelling(blob: seq<byte>, pos: int, coeff: i64, top: int, bytes: seq<byte>)
    requires InData(blob, pos)
    requires Spells(blob, top, bytes)
    requires pos + POINTER_SIZE <= top - |bytes| + 1
    ensures Spells(FixSlot(blob, pos, coeff), top, bytes)
  {
    var b := FixSlot(blob, pos, coeff);
    FixSlotEffect(blob, pos, coeff);
    forall i | 0 <= i < |bytes| ensures b[top - i] == bytes[i] {
      assert blob[top - i] == bytes[i];
    }
  }

  /** A zero delta ends the walk after fixing the slot at `pos`. */
  lemma WalkStops(blob: seq<byte>, vp: int, pos: int, coeff: i64)
    requires InData(blob, pos) && 0 <= vp < |blob|
    requires ReadVlq(FixSlot(blob, pos, coeff), vp).Some? && ReadVlq(FixSlot(blob, pos, coeff), vp).value.offset == 0
    ensures Walk(blob, vp, pos, coeff) == Success(Walked(FixSlot(blob, pos, coeff), [pos]))
  {
  }

  /** A nonzero delta leads to the next slot, and the walk from there, below
      the delta's bytes, makes up the rest. */
  lemma WalkSteps(blob: seq<byte>, vp: int, pos: int, coeff: i64, offset: int, len: nat, fixed: seq<byte>, rest: seq<int>)
    requires InData(blob, pos) && 0 <= vp < |blob|
    requires ReadVlq(FixSlot(blob, pos, coeff), vp) == Some(Decoded(offset, len)) && offset != 0
    requires InData(blob, pos + offset)
    requires Walk(FixSlot(blob, pos, coeff), vp - len, pos + offset, coeff) == Success(Walked(fixed, rest))
    ensures Walk(blob, vp, pos, coeff) == Success(Walked(fixed, [pos] + rest))
  {
  }

  /** The running sums up to the first zero, one delta at a time. */
  lemma RunningStep(pos: int, ds: seq<int>)
    requires ds != [] && ds[0] != 0
    ensures Running(pos, NonZeroPrefix(ds)) == [pos + ds[0]] + Running(pos + ds[0], NonZeroPrefix(ds[1..]))
  {
    assert NonZeroPrefix(ds) == [ds[0]] + NonZeroPrefix(ds[1..]);
  }

  /** Slots below a floor: the first one, and the rest. */
  lemma BelowCons(p: int, ps: seq<int>, floor: int)
    requires Below([p] + ps, floor)
    ensures 0 <= p && p + POINTER_SIZE <= floor
    ensures Below(ps, floor)
  {
    assert ([p] + ps)[0] == p;
    forall k | 0 <= k < |ps| ensures 0 <= ps[k] && ps[k] + POINTER_SIZE <= floor {
      assert ([p] + ps)[k + 1] == ps[k];
    }
  }

  /** Slots below a floor inside the data are in the data. */
  lemma BelowInData(blob: seq<byte>, ps: seq<int>, floor: int)
    requires Below(ps, floor) && floor <= |blob|
    ensures AllInData(blob, ps)
  {
    forall k | 0 <= k < |ps| ensures InData(blob, ps[k]) { }
  }

  /** Fixing a list of slots fixes its first and then the rest. */
  lemma FixAllCons(blob: seq<byte>, p: int, ps: seq<int>, coeff: i64)
    requires InData(blob, p) && AllInData(blob, ps)
    ensures AllInData(blob, [p] + ps)
    ensures AllInData(FixSlot(blob, p, coeff), ps)
    ensures FixAll(blob, [p] + ps, coeff) == FixAll(FixSlot(blob, p, coeff), ps, coeff)
  {
    assert ([p] + ps)[1..] == ps;
    forall k | 0 <= k < |[p] + ps| ensures InData(blob, ([p] + ps)[k]) {
      if k > 0 {
        assert ([p] + ps)[k] == ps[k - 1];
      }
    }
  }

  /** The walk over a chain whose first remaining delta is zero, or that
      has none left before the terminating zero byte: it fixes the slot at
      `pos` and stops. */
  lemma WalkVisitsLast(blob: seq<byte>, vp: int, pos: int, coeff: i64, ds: seq<int>)
    requires AllValid(ds) && InData(blob, pos)
    requires ds == [] || ds[0] == 0
    requires Spells(blob, vp, TopDown(ds) + [0])
    requires pos + POINTER_SIZE <= vp - |TopDown(ds)|
    ensures Running(pos, NonZeroPrefix(ds)) == []
    ensures Walk(blob, vp, pos, coeff) == Success(Walked(FixSlot(blob, pos, coeff), [pos]))
  {
    var b1 := FixSlot(blob, pos, coeff);
    FixKeepsSpelling(blob, pos, coeff, vp, TopDown(ds) + [0]);
    if ds == [] {
      assert b1[vp - 0] == (TopDown(ds) + [0])[0];
      ReadZero(b1, vp);
    } else {
      SpellsRest(b1, vp, ds);
      ReadSpelled(b1, vp, ds[0]);
      assert NonZeroPrefix(ds) == [];
    }
    WalkStops(blob, vp, pos, coeff);
  }

  /** Started on the slot at `pos` and the top byte of the remaining chain
      `ds`, laid out downward and terminated by a zero byte, the walk visits
      `pos` and then the running sums of the deltas up to the first zero,
      and fixes exactly those slots. */
  lemma {:induction false} WalkVisits(blob: seq<byte>, vp: int, pos: int, coeff: i64, ds: seq<int>)
    requires AllValid(ds) && InData(blob, pos)
    requires Spells(blob, vp, TopDown(ds) + [0])
    requires Below([pos] + Running(pos, NonZeroPrefix(ds)), vp - |TopDown(ds)|)
    ensures AllInData(blob, [pos] + Running(pos, NonZeroPrefix(ds)))
    ensures Walk(blob, vp, pos, coeff) ==
      Success(Walked(FixAll(blob, [pos] + Running(pos, NonZeroPrefix(ds)), coeff), [pos] + Running(pos, NonZeroPrefix(ds))))
    decreases ds, 1
  {
    var tail := Running(pos, NonZeroPrefix(ds));
    if ds == [] || ds[0] == 0 {
      BelowCons(pos, tail, vp - |TopDown(ds)|);
      WalkVisitsLast(blob, vp, pos, coeff, ds);
      FixAllCons(blob, pos, tail, coeff);
      assert [pos] + tail == [pos] && FixAll(FixSlot(blob, pos, coeff), tail, coeff) == FixSlot(blob, pos, coeff);
    } else {
      var len := StepFacts(blob, vp, pos, coeff, ds);
      WalkVisitsNext(blob, vp, pos, coeff, ds, len);
    }
  }

  /** The walk from a slot whose delta `ds[0]` is nonzero and `len` bytes
      long: it steps to the next slot, and what it visits and fixes from
      there on is the rest of the chain's. */
  lemma {:induction false} WalkVisitsNext(blob: seq<byte>, vp: int, pos: int, coeff: i64, ds: seq<int>, len: nat)
    requires InData(blob, pos) && 0 <= vp < |blob|
    requires ds != [] && ds[0] != 0 && AllValid(ds[1..])
    requires ReadVlq(FixSlot(blob, pos, coeff), vp) == Some(Decoded(ds[0], len))
    requires InData(blob, pos + ds[0])
    requires Spells(FixSlot(blob, pos, coeff), vp - len, TopDown(ds[1..]) + [0])
    requires Below([pos + ds[0]] + Running(pos + ds[0], NonZeroPrefix(ds[1..])), vp - len - |TopDown(ds[1..])|)
    ensures Walk(blob, vp, pos, coeff) ==
      Success(Walked(FixAll(FixSlot(blob, pos, coeff), [pos + ds[0]] + Running(pos + ds[0], NonZeroPrefix(ds[1..])), coeff),
                     [pos] + ([pos + ds[0]] + Running(pos + ds[0], NonZeroPrefix(ds[1..])))))
    decreases ds, 0
  {
    var b1 := FixSlot(blob, pos, coeff);
    WalkVisits(b1, vp - len, pos + ds[0], coeff, ds[1..]);
    var rest := [pos + ds[0]] + Running(pos + ds[0], NonZeroPrefix(ds[1..]));
    WalkSteps(blob, vp, pos, coeff, ds[0], len, FixAll(b1, rest, coeff), rest);
  }

  /** What one nonzero step of the walk needs: the delta read at `vp`, the
      next slot in the data, and the rest of the chain below the delta's
      `len` bytes, still spelled once the slot at `pos` is fixed. */
  lemma StepFacts(blob: seq<byte>, vp: int, pos: int, coeff: i64, ds: seq<int>) returns (len: nat)
    requires AllValid(ds) && InData(blob, pos)
    requires ds != [] && ds[0] != 0
    requires Spells(blob, vp, TopDown(ds) + [0])
    requires Below([pos] + Running(pos, NonZeroPrefix(ds)), vp - |TopDown(ds)|)
    ensures 0 <= vp < |blob| && AllValid(ds[1..])
    ensures ReadVlq(FixSlot(blob, pos, coeff), vp) == Some(Decoded(ds[0], len))
    ensures InData(blob, pos + ds[0]) && InData(FixSlot(blob, pos, coeff), pos + ds[0])
    ensures Spells(FixSlot(blob, pos, coeff), vp - len, TopDown(ds[1..]) + [0])
    ensures Running(pos, NonZeroPrefix(ds)) == [pos + ds[0]] + Running(pos + ds[0], NonZeroPrefix(ds[1..]))
    ensures Below([pos + ds[0]] + Running(pos + ds[0], NonZeroPrefix(ds[1..])), vp - len - |TopDown(ds[1..])|)
    ensures AllInData(blob, [pos] + Running(pos, NonZeroPrefix(ds)))
    ensures FixAll(blob, [pos] + Running(pos, NonZeroPrefix(ds)), coeff)
         == FixAll(FixSlot(blob, pos, coeff), Running(pos, NonZeroPrefix(ds)), coeff)
  {
    var floor := vp - |TopDown(ds)|;
    var tail := Running(pos, NonZeroPrefix(ds));
    BelowCons(pos, tail, floor);
    BelowInData(blob, tail, floor);
    FixAllCons(blob, pos, tail, coeff);
    var b1 := FixSlot(blob, pos, coeff);
    FixKeepsSpelling(blob, pos, coeff, vp, TopDown(ds) + [0]);
    SpellsRest(b1, vp, ds);
    ReadSpelled(b1, vp, ds[0]);
    RunningStep(pos, ds);
    BelowCons(pos + ds[0], Running(pos + ds[0], NonZeroPrefix(ds[1..])), floor);
    len := |Encoding(ds[0])|;
  }

  /** The first step of cm_do_deserialize: with a relocation coefficient
      that fits int64 and is nonzero, the walk starts on the first slot,
      below the first delta's bytes. */
  lemma DeserializeSteps(blob: seq<byte>, start: u64, objectSize: u64, first: int, len: nat, coeff: i64, r: Result<Walked>)
    requires |blob| > 0 && ReadVlq(blob, |blob| - 1) == Some(Decoded(first, len))
    requires InData(blob, first)
    requires Coefficient(blob, first, start, objectSize) == Flagged(coeff, false) && coeff != 0
    requires r == Walk(blob, |blob| - 1 - len, first, coeff)
    ensures Deserialize(blob, start, objectSize) == r
  {
  }

  /** The headline property: on data whose top bytes are the encoded chain
      `ds` followed by a zero byte, with every slot the walk reaches below
      the chain, and a nonzero coefficient `coeff` that fits int64,
      cm_do_deserialize visits the offsets of the registered slots in
      registration order, cut short at the first zero delta after the
      first, and fixes exactly those slots. */
  lemma DeserializeVisits(blob: seq<byte>, start: u64, objectSize: u64, ds: seq<int>, coeff: i64)
    requires ds != [] && AllValid(ds)
    requires Spells(blob, |blob| - 1, TopDown(ds) + [0])
    requires Below(PrefixSums(Live(ds)), |blob| - 1 - |TopDown(ds)|)
    requires InData(blob, ds[0])
    requires Coefficient(blob, ds[0], start, objectSize) == Flagged(coeff, false) && coeff != 0
    ensures AllInData(blob, PrefixSums(Live(ds)))
    ensures Deserialize(blob, start, objectSize) ==
      Success(Walked(FixAll(blob, PrefixSums(Live(ds)), coeff), PrefixSums(Live(ds))))
  {
    var len := WalkFromFirst(blob, ds, coeff);
    DeserializeSteps(blob, start, objectSize, ds[0], len, coeff, Walk(blob, |blob| - 1 - len, ds[0], coeff));
  }

  /** The top delta is read from the last byte, and the walk from the slot
      it leads to visits the rest of the chain. */
  lemma WalkFromFirst(blob: seq<byte>, ds: seq<int>, coeff: i64) returns (len: nat)
    requires ds != [] && AllValid(ds)
    requires Spells(blob, |blob| - 1, TopDown(ds) + [0])
    requires Below(PrefixSums(Live(ds)), |blob| - 1 - |TopDown(ds)|)
    requires InData(blob, ds[0])
    ensures |blob| > 0 && ReadVlq(blob, |blob| - 1) == Some(Decoded(ds[0], len))
    ensures AllInData(blob, PrefixSums(Live(ds)))
    ensures Walk(blob, |blob| - 1 - len, ds[0], coeff) ==
      Success(Walked(FixAll(blob, PrefixSums(Live(ds)), coeff), PrefixSums(Live(ds))))
  {
    SpellsRest(blob, |blob| - 1, ds);
    len := |Encoding(ds[0])|;
    ReadSpelled(blob, |blob| - 1, ds[0]);
    var ps := PrefixSums(Live(ds));
    assert ps == [ds[0]] + Running(ds[0], NonZeroPrefix(ds[1..]));
    WalkVisits(blob, |blob| - 1 - len, ds[0], coeff, ds[1..]);
  }

  /** When the data is back at the address it was saved from, nothing is
      touched. */
  lemma DeserializeUnmoved(blob: seq<byte>, start: u64, objectSize: u64, first: int, len: nat)
    requires |blob| > 0 && ReadVlq(blob, |blob| - 1) == Some(Decoded(first, len))
    requires InData(blob, first)
    requires start == Sub64(WordAt(blob, first), objectSize)
    ensures Deserialize(blob, start, objectSize) == Success(Walked(blob, []))
  {
  }

  /** When the distance to the new address does not fit int64 the call
      fails with ERANGE and nothing is touched. */
  lemma DeserializeOutOfRange(blob: seq<byte>, start: u64, objectSize: u64, first: int, len: nat)
    requires |blob| > 0 && ReadVlq(blob, |blob| - 1) == Some(Decoded(first, len))
    requires InData(blob, first)
    requires !(-INT64_MAX <= start - Sub64(WordAt(blob, first), objectSize) <= INT64_MAX)
    ensures Deserialize(blob, start, objectSize) == Failure(ERANGE)
  {
  }
}
