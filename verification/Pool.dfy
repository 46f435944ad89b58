/** The boot-time page pool (utils.c `alloc_page`): a bump allocator over a fixed stretch of the
    kernel's 2 MiB linear map. */
module Pool {
  import opened Words

  const KERNEL_BASE: int := 0xFFFF_FFFF_8000_0000
  const POOL_START: int := 0xFFFF_FFFF_8002_0000
  const POOL_END: int := 0xFFFF_FFFF_801F_F000
  const KERNEL_END: int := 0xFFFF_FFFF_8020_0000
  const TEMP_PAGE: int := 0xFFFF_FFFF_801F_F000
  const NULL: Word := 0

  /** kernel.c `v2p`, on the addresses it is used for. */
  function V2p(va: Word): Word
    requires va >= KERNEL_BASE
  {
    va - KERNEL_BASE
  }

  ghost predicate PoolState(next: Word) {
    POOL_START <= next <= POOL_END && next % PAGE_SIZE == 0
  }

  class PagePool {
    var nextFree: Word

    constructor ()
      ensures nextFree == POOL_START && PoolState(nextFree)
    {
      nextFree := POOL_START;
    }

    method AllocPage() returns (va: Word)
      requires PoolState(nextFree)
      modifies this
      ensures PoolState(nextFree)
      ensures (va, nextFree) == Bump(old(nextFree))
      ensures old(nextFree) + PAGE_SIZE < POOL_END ==> va == old(nextFree) && nextFree == old(nextFree) + PAGE_SIZE
    {
      if (nextFree + PAGE_SIZE) % TWO_64 >= POOL_END {
        return NULL;
      }
      va := nextFree;
      nextFree := nextFree + PAGE_SIZE;
    }
  }

  function Bump(next: Word): (r: (Word, Word))
    requires PoolState(next)
    ensures PoolState(r.1)
  {
    if next + PAGE_SIZE < POOL_END then (next, next + PAGE_SIZE) else (NULL, next)
  }

  /** The results of n calls of alloc_page in a row. */
  function Run(next: Word, n: nat): (vas: seq<Word>)
    requires PoolState(next)
    ensures |vas| == n
    decreases n
  {
    if n == 0 then [] else [Bump(next).0] + Run(Bump(next).1, n - 1)
  }

  /** Over any run the pages are contiguous and so distinct, each is backed by a frame between the
      pool's first frame and the window's frame 511 (exclusive), and once the pool is exhausted
      every further call returns NULL. */
  lemma {:induction false} RunIsContiguous(next: Word, n: nat, k: nat)
    requires PoolState(next) && k < n
    ensures Run(next, n)[k] == if next + (k + 1) * PAGE_SIZE < POOL_END then next + k * PAGE_SIZE else NULL
    ensures var va := Run(next, n)[k];
            va != NULL ==> 32 <= V2p(va) / PAGE_SIZE < 511 && va % PAGE_SIZE == 0 && va + PAGE_SIZE <= TEMP_PAGE
    decreases n
  {
    if k != 0 { RunIsContiguous(Bump(next).1, n - 1, k - 1); }
  }
}
