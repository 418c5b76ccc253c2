/** The memory regions reported to an API consumer: each DRAM bank goes to the first free slot. */
module MemoryRegions {

  const MR_ATTR_DRAM := 2

  /** A slot is free while its flags are 0. */
  datatype Region = Region(start: nat, size: nat, flags: int)

  datatype Bank = Bank(start: nat, size: nat)

  // ---------------------------------------------------------------- what the slots should hold

  function NonEmpty(banks: seq<Bank>, n: nat): seq<Bank>
    requires n <= |banks|
  {
    if n == 0 then [] else NonEmpty(banks, n - 1) + if banks[n - 1].size != 0 then [banks[n - 1]] else []
  }

  /** How many of the first `i` slots are free. */
  function FreeBefore(mr: seq<Region>, i: nat): nat
    requires i <= |mr|
  {
    if i == 0 then 0 else FreeBefore(mr, i - 1) + if mr[i - 1].flags == 0 then 1 else 0
  }

  /** The r-th free slot gets the r-th bank while there are banks; all other slots stay as they were. */
  function Filled(mr: seq<Region>, banks: seq<Bank>, flags: int): seq<Region> {
    seq(|mr|, i requires 0 <= i < |mr| =>
      if mr[i].flags == 0 && FreeBefore(mr, i) < |banks|
      then Region(banks[FreeBefore(mr, i)].start, banks[FreeBefore(mr, i)].size, flags)
      else mr[i])
  }

  // ---------------------------------------------------------------- adding one bank

  lemma {:induction false} FreeMonotone(mr: seq<Region>, i: nat, k: nat)
    requires i <= k <= |mr|
    ensures FreeBefore(mr, i) <= FreeBefore(mr, k)
  {
    if i < k { FreeMonotone(mr, i, k - 1); }
  }

  /** After `n` banks were filled in, the first slot still free is the n-th that was free at the start. */
  lemma {:induction false} NextFree(mr: seq<Region>, banks: seq<Bank>, flags: int, i: nat)
    requires flags != 0 && i < |mr|
    ensures Filled(mr, banks, flags)[i].flags == 0 <==> mr[i].flags == 0 && FreeBefore(mr, i) >= |banks|
  {
  }

  /** The first free slot from `i` on, or the number of slots. */
  function FirstFree(mr: seq<Region>, i: nat): (r: nat)
    requires i <= |mr|
    ensures i <= r <= |mr|
    ensures forall q :: i <= q < r ==> mr[q].flags != 0
    ensures r < |mr| ==> mr[r].flags == 0
    decreases |mr| - i
  {
    if i == |mr| || mr[i].flags == 0 then i else FirstFree(mr, i + 1)
  }

  /** First fit; dropped if there is no room. */
  function Insert(mr: seq<Region>, r: Region): (s: seq<Region>)
    ensures |s| == |mr|
  {
    var k := FirstFree(mr, 0);
    if k < |mr| then mr[k := r] else mr
  }

  /** First fit turns the table filled with some banks into the table filled with one more. */
  lemma {:induction false} FilledGrows(mr: seq<Region>, banks: seq<Bank>, b: Bank, flags: int)
    requires flags != 0
    ensures Filled(mr, banks + [b], flags) == Insert(Filled(mr, banks, flags), Region(b.start, b.size, flags))
  {
    var now, next := Filled(mr, banks, flags), Filled(mr, banks + [b], flags);
    var k := FirstFree(now, 0);
    FreeBelow(mr, banks, flags, k);
    forall i | 0 <= i < |mr|
      ensures next[i] == if i == k then Region(b.start, b.size, flags) else now[i]
    {
      if mr[i].flags == 0 {
        if i < k {
          NextFree(mr, banks, flags, i);
        } else if i > k {
          FreeMonotone(mr, k + 1, i);
        }
      }
    }
  }

  /** If the first free slot after filling is `k`, exactly the banks' number of slots before it were free. */
  lemma {:induction false} FreeBelow(mr: seq<Region>, banks: seq<Bank>, flags: int, k: nat)
    requires flags != 0 && k <= |mr|
    requires forall i :: 0 <= i < k ==> Filled(mr, banks, flags)[i].flags != 0
    ensures FreeBefore(mr, k) <= |banks|
    ensures k < |mr| && Filled(mr, banks, flags)[k].flags == 0 ==> FreeBefore(mr, k) == |banks| && mr[k].flags == 0
  {
    if k > 0 {
      FreeBelow(mr, banks, flags, k - 1);
      NextFree(mr, banks, flags, k - 1);
    }
    if k < |mr| { NextFree(mr, banks, flags, k); }
  }

  // ---------------------------------------------------------------- the code

  /** `platform_set_mr` */
  method SetRegion(mr: array?<Region>, start: nat, size: nat, flags: int)
    modifies mr
    ensures mr != null && size != 0 && flags != 0 ==> mr[..] == Insert(old(mr[..]), Region(start, size, flags))
    ensures mr != null && (size == 0 || flags == 0) ==> mr[..] == old(mr[..])
  {
    if mr == null || size == 0 || flags == 0 {
      return;
    }
    for i := 0 to mr.Length
      invariant mr[..] == old(mr[..]) && forall q :: 0 <= q < i ==> mr[q].flags != 0
    {
      if mr[i].flags == 0 {
        mr[i] := Region(start, size, flags);
        return;
      }
    }
  }

  lemma {:induction false} FilledNone(mr: seq<Region>, flags: int)
    ensures Filled(mr, [], flags) == mr
  {
  }

  /** `platform_sys_info`: occupied slots are left alone, and the free ones take the non-empty DRAM banks in order
      as far as they go. */
  method SysInfo(mr: array?<Region>, banks: seq<Bank>)
    modifies mr
    ensures mr != null ==> mr[..] == Filled(old(mr[..]), NonEmpty(banks, |banks|), 2)
  {
    if mr != null { FilledNone(mr[..], MR_ATTR_DRAM); }
    for i := 0 to |banks|
      invariant mr != null ==> mr[..] == Filled(old(mr[..]), NonEmpty(banks, i), MR_ATTR_DRAM)
    {
      SetRegion(mr, banks[i].start, banks[i].size, MR_ATTR_DRAM);
      if mr != null && banks[i].size != 0 {
        FilledGrows(old(mr[..]), NonEmpty(banks, i), banks[i], MR_ATTR_DRAM);
      }
    }
  }

  /** Free slots are used up one by one: among the first `k` slots, as many stay free as there were more free
      slots than banks. */
  lemma {:induction false} SlotsUsedUp(mr: seq<Region>, banks: seq<Bank>, flags: int, k: nat)
    requires flags != 0 && k <= |mr|
    ensures FreeBefore(Filled(mr, banks, flags), k) ==
            if FreeBefore(mr, k) <= |banks| then 0 else FreeBefore(mr, k) - |banks|
  {
    if k > 0 {
      SlotsUsedUp(mr, banks, flags, k - 1);
      NextFree(mr, banks, flags, k - 1);
    }
  }
}
