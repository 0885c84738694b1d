/**
 The delta chain: the registry stores each slot as its distance from the
 previous slot (the first from the arena base), serialize lays the encodings
 out from the top of its area downward in registration order, and
 deserialize walks them back, stopping at a zero delta.
 */
module Chain {
  import opened Machine
  import opened Vlq

  /** Sum of the deltas. */
  function Sum(ds: seq<int>): int
  {
    if ds == [] then 0 else ds[0] + Sum(ds[1..])
  }

  /** The positions reached by adding the deltas one by one to `pos`. */
  function Running(pos: int, ds: seq<int>): (ps: seq<int>)
    ensures |ps| == |ds|
    decreases ds
  {
    if ds == [] then [] else [pos + ds[0]] + Running(pos + ds[0], ds[1..])
  }

  /** Absolute offsets of the slots a delta chain describes. */
  function PrefixSums(ds: seq<int>): (ps: seq<int>)
    ensures |ps| == |ds|
  {
    Running(0, ds)
  }

  lemma {:induction false} SumAppend(ds: seq<int>, d: int)
    ensures Sum(ds + [d]) == Sum(ds) + d
  {
    if ds != [] {
      assert (ds + [d])[1..] == ds[1..] + [d];
      SumAppend(ds[1..], d);
    }
  }

  lemma {:induction false} RunningAppend(pos: int, ds: seq<int>, d: int)
    ensures Running(pos, ds + [d]) == Running(pos, ds) + [pos + Sum(ds) + d]
    decreases ds
  {
    if ds == [] {
    } else {
      assert (ds + [d])[1..] == ds[1..] + [d];
      RunningAppend(pos + ds[0], ds[1..], d);
    }
  }

  /** Appending a delta appends the slot it reaches. */
  lemma PrefixSumsAppend(ds: seq<int>, d: int)
    ensures PrefixSums(ds + [d]) == PrefixSums(ds) + [Sum(ds) + d]
  {
    RunningAppend(0, ds, d);
  }

  predicate AllValid(ds: seq<int>)
  {
    forall i | 0 <= i < |ds| :: ValidOffset(ds[i])
  }

  /** The encodings of the deltas in registration order: the bytes of the
      serialized area read from its top index downward. */
  function TopDown(ds: seq<int>): seq<byte>
    requires AllValid(ds)
  {
    if ds == [] then [] else Encoding(ds[0]) + TopDown(ds[1..])
  }

  /** Total number of encoded bytes. */
  function EncodedLength(ds: seq<int>): (n: nat)
    requires AllValid(ds)
    ensures n == |TopDown(ds)|
  {
    if ds == [] then 0 else |Encoding(ds[0])| + EncodedLength(ds[1..])
  }

  lemma {:induction false} TopDownAppend(ds: seq<int>, d: int)
    requires AllValid(ds) && ValidOffset(d)
    ensures AllValid(ds + [d])
    ensures TopDown(ds + [d]) == TopDown(ds) + Encoding(d)
  {
    if ds != [] {
      assert (ds + [d])[1..] == ds[1..] + [d];
      TopDownAppend(ds[1..], d);
    }
  }

  /** The deltas a reader sees before it stops: the first one always, then
      every one up to (excluding) the next zero. */
  function Live(ds: seq<int>): (r: seq<int>)
    requires ds != []
    ensures 1 <= |r| <= |ds| && r == ds[..|r|]
  {
    [ds[0]] + NonZeroPrefix(ds[1..])
  }

  /** The longest prefix without a zero. */
  function NonZeroPrefix(ds: seq<int>): (r: seq<int>)
    ensures |r| <= |ds| && r == ds[..|r|]
    ensures forall i | 0 <= i < |r| :: r[i] != 0
    ensures |r| < |ds| ==> ds[|r|] == 0
  {
    if ds == [] || ds[0] == 0 then [] else [ds[0]] + NonZeroPrefix(ds[1..])
  }

  /** With no zero delta after the first, the reader sees every delta. */
  lemma LiveWithoutZeros(ds: seq<int>)
    requires ds != []
    requires forall i | 1 <= i < |ds| :: ds[i] != 0
    ensures Live(ds) == ds
  {
  }

  /** Each running sum is the one before it plus its delta. */
  lemma {:induction false} RunningStepAt(pos: int, ds: seq<int>, i: int)
    requires 0 <= i < |ds| - 1
    ensures Running(pos, ds)[i + 1] == Running(pos, ds)[i] + ds[i + 1]
    decreases ds
  {
    if i > 0 {
      RunningStepAt(pos + ds[0], ds[1..], i - 1);
    }
  }

  /** Slots whose words are apart are distinct, so no delta after the first
      is zero and the reader sees the whole chain. */
  lemma ApartLive(ds: seq<int>)
    requires ds != [] && AllApart(PrefixSums(ds))
    ensures Live(ds) == ds
  {
    forall i | 1 <= i < |ds| ensures ds[i] != 0 {
      RunningStepAt(0, ds, i - 1);
      assert Apart(PrefixSums(ds)[i - 1], PrefixSums(ds)[i]);
    }
    LiveWithoutZeros(ds);
  }

  /** The last running sum from 0 is the sum of all deltas. */
  lemma LastPrefixSum(ds: seq<int>)
    requires ds != []
    ensures PrefixSums(ds)[|ds| - 1] == Sum(ds)
  {
    var init := ds[..|ds| - 1];
    assert ds == init + [ds[|ds| - 1]];
    PrefixSumsAppend(init, ds[|ds| - 1]);
    SumAppend(init, ds[|ds| - 1]);
  }

  /** A zero delta after the first ends what the reader sees: no delta at
      or after it is live. */
  lemma ZeroCutsChain(ds: seq<int>, k: int)
    requires 1 <= k < |ds| && ds[k] == 0
    ensures |Live(ds)| <= k
  {
  }
}
