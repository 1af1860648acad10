/**
 The table of file descriptors (fs_init, file_new_descriptor and fclose, src/fs/file.c:60-98 and :241-254). A slot
 that is taken stays taken: closing a file clears nothing.
 */
module FileTable {
  import opened Kernel

  // COS32_MAX_FILE_DESCRIPTORS
  const MAX_FILE_DESCRIPTORS := 128

  function CountFree(taken: seq<bool>): (n: nat)
    ensures n <= |taken| && (n == 0 <==> forall i :: 0 <= i < |taken| ==> taken[i])
  {
    if taken == [] then 0 else CountFree(taken[..|taken| - 1]) + if taken[|taken| - 1] then 0 else 1
  }

  lemma {:induction false} TakeOne(taken: seq<bool>, i: nat)
    requires i < |taken| && !taken[i]
    ensures CountFree(taken[i := true]) == CountFree(taken) - 1
    decreases |taken|
  {
    var n := |taken| - 1;
    if i < n {
      TakeOne(taken[..n], i);
      assert taken[i := true][..n] == taken[..n][i := true];
    } else {
      assert taken[i := true][..n] == taken[..n];
    }
  }

  lemma {:induction false} AllFree(taken: seq<bool>)
    requires forall i :: 0 <= i < |taken| ==> !taken[i]
    ensures CountFree(taken) == |taken|
    decreases |taken|
  {
    if taken != [] { AllFree(taken[..|taken| - 1]); }
  }

  class Descriptors {
    const taken: array<bool>

    ghost predicate Valid() {
      taken.Length == MAX_FILE_DESCRIPTORS
    }

    /** fs_init clears the table. */
    constructor ()
      ensures Valid() && fresh(taken) && Free() == 128
    {
      taken := new bool[MAX_FILE_DESCRIPTORS](_ => false);
      new;
      AllFree(taken[..]);
    }

    /** How many files can still be opened before the machine is started again. */
    ghost function Free(): nat
      reads taken
    {
      CountFree(taken[..])
    }

    /** file_new_descriptor: the first slot that is free, counted from one. */
    method New() returns (res: int)
      requires Valid()
      modifies taken
      ensures if old(Free()) == 0 then res == -ENOMEM && taken[..] == old(taken[..])
              else
                && 1 <= res <= MAX_FILE_DESCRIPTORS && !old(taken[res - 1])
                && (forall i :: 0 <= i < res - 1 ==> old(taken[i]))
                && taken[..] == old(taken[..])[res - 1 := true] && Free() == old(Free()) - 1
    {
      for i := 0 to MAX_FILE_DESCRIPTORS
        invariant taken[..] == old(taken[..]) && forall k :: 0 <= k < i ==> taken[k]
      {
        if !taken[i] {
          TakeOne(taken[..], i);
          taken[i] := true;
          return i + 1;
        }
      }
      res := -ENOMEM;
    }

    /** fclose: nothing but the result; the filesystem's own close returns 0 (src/fs/fat/fat16.c:212-216). */
    method Close(fd: int) returns (res: int)
      requires Valid()
      ensures res == if 1 <= fd <= MAX_FILE_DESCRIPTORS && taken[fd - 1] then 0 else -EIO
    {
      if fd <= 0 || fd > MAX_FILE_DESCRIPTORS || !taken[fd - 1] {
        return -EIO;
      }
      return 0;
    }
  }
}
