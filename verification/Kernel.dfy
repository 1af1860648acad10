/**
 Shared vocabulary: error codes (src/status.h), sizes (src/config.h) and the way a call into the
 kernel can end. A failed ASSERT and a panic both stop the machine for good, so a call that reaches
 one is Halted.
 */
module Kernel {
  datatype Option<+T> = None | Some(value: T)

  datatype Outcome<+T> = Done(value: T) | Halted

  const EIO := 1
  const EINVARG := 6
  const ENOMEM := 7
  const EUNIMP := 8

  // COS32_MAX_PATH
  const MAX_PATH := 108

  // 2 to the power 32: pointers and unsigned words are kept below it
  const WORD := 0x1_0000_0000

  /** The numbers of src/status.h and src/config.h. */
  lemma Numbers()
    ensures EIO == 1 && EINVARG == 6 && ENOMEM == 7 && EUNIMP == 8 && MAX_PATH == 108 && WORD == 4294967296
  {}

  /** paging_is_address_aligned: page frames and heap blocks are both 4096 bytes. */
  predicate Aligned(address: nat) {
    address % 4096 == 0
  }

  /** paging_align_value_to_upper_page, in 32-bit arithmetic: the last partial page wraps to 0. */
  function AlignUp(value: nat): (r: nat)
    requires value < WORD
    ensures Aligned(r) && r < WORD
    ensures value <= WORD - 4096 ==> value <= r < value + 4096
    ensures value > WORD - 4096 ==> r == 0
  {
    if value % 4096 == 0 then value else (value - value % 4096 + 4096) % WORD
  }

  lemma {:induction false} SubsetSize<T>(a: set<T>, b: set<T>)
    requires a <= b
    ensures |a| <= |b|
  {
    if a != {} {
      var x :| x in a;
      SubsetSize(a - {x}, b - {x});
    }
  }
}
