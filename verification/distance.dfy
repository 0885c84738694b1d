/**
 Overflow-checked signed distance between two addresses (subptr_64,
 subptr_32, get_ptrdiff). Both addresses are treated as unsigned 64-bit
 integers; the distance is formed from the unsigned magnitude and a sign,
 never by a raw signed subtraction.
 */
module Distance {
  import opened Machine

  /** A returned value together with the caller's `*overflow` flag as it
      stands after the call. */
  datatype Flagged = Flagged(value: int, overflow: bool)

  function Max(x: u64, y: u64): u64 { if x > y then x else y }

  function Min(x: u64, y: u64): u64 { if x < y then x else y }

  /** subptr_64: ptr1 - ptr2 as an int64_t, or -1 with the flag raised when
      the magnitude exceeds INT64_MAX. The incoming flag is never cleared. */
  function Subptr64(ptr1: u64, ptr2: u64, overflow: bool): (r: Flagged)
    ensures -INT64_MAX <= ptr1 - ptr2 <= INT64_MAX ==> r == Flagged(ptr1 - ptr2, overflow)
    ensures !(-INT64_MAX <= ptr1 - ptr2 <= INT64_MAX) ==> r == Flagged(-1, true)
  {
    var diff := Max(ptr1, ptr2) - Min(ptr1, ptr2);
    if diff <= INT64_MAX then
      // ~diff + 1 is the two's-complement negation of diff; the addition
      // wraps to 0 only when diff is 0
      var complement := TWO_64 - 1 - diff;
      var negated := if complement + 1 == TWO_64 then 0 else complement + 1;
      Flagged(if ptr1 < ptr2 then Signed64(negated) else Signed64(diff), overflow)
    else
      Flagged(-1, true)
  }

  /** subptr_32: the distance narrowed to int32_t. Fails (-1, flag raised)
      when subptr_64 failed, when the flag was already raised on entry, or
      when the distance is outside the int32 range. */
  function Subptr32(ptr1: u64, ptr2: u64, overflow: bool): (r: Flagged)
    ensures !overflow && INT32_MIN <= ptr1 - ptr2 <= INT32_MAX ==> r == Flagged(ptr1 - ptr2, false)
    ensures overflow || !(INT32_MIN <= ptr1 - ptr2 <= INT32_MAX) ==> r == Flagged(-1, true)
  {
    var diff64 := Subptr64(ptr1, ptr2, overflow);
    if !diff64.overflow && diff64.value <= INT32_MAX && diff64.value >= INT32_MIN then
      Flagged(diff64.value, diff64.overflow)
    else
      Flagged(-1, true)
  }

  /** get_ptrdiff: clears the flag, then narrows. */
  function GetPtrdiff(ptr1: u64, ptr2: u64): (r: Flagged)
    ensures !r.overflow <==> INT32_MIN <= ptr1 - ptr2 <= INT32_MAX
    ensures !r.overflow ==> r.value == ptr1 - ptr2
    ensures r.overflow ==> r.value == -1
  {
    Subptr32(ptr1, ptr2, false)
  }
}
