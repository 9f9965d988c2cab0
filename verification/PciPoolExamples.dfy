/** Runs of the pool in which pci_pool_free does not do what it is for. */
module PciPoolExamples {
  import opened Arith
  import opened Options
  import opened PciPool

  /** A new pool after one request, its page being at `at`. */
  method OneOut(made: Created, at: nat) returns (pool: Pool, d: nat)
    requires made.Made? && 0 < made.size <= made.allocation && made.blocksPerPage == made.allocation / made.size
    requires at + made.allocation <= TWO32
    ensures fresh(pool) && pool.Valid() && pool.size == made.size && pool.allocation == made.allocation
    ensures pool.blocksPerPage == made.blocksPerPage
    ensures |pool.pages| == 1 && pool.pages[0].dma == at && TakenTotal(pool.pages, pool.blocksPerPage) == 1
    ensures pool.Out(d) && InPage(pool.pages[0], pool.allocation, d) && (d - at) % pool.size == 0
  {
    hide FreeBit, WholeBitmaps;
    pool := new Pool(made);
    assert TakenTotal(pool.pages, pool.blocksPerPage) == 0;
    var r := pool.Alloc(Some((0, at)));
    d := r.value.1;
    var b: nat :| Taken(pool.pages, pool.blocksPerPage, 0, b) && d == at + b * pool.size;
    BlockInside(pool.size, pool.allocation, b);
    MulMod(b, pool.size);
  }

  /** A block of a page that ends at 2^32 is never taken back. */
  method LostAtTop() returns (pool: Pool, d: nat, how: Release)
    ensures fresh(pool) && pool.Valid() && how == NoPage && pool.Out(d)
  {
    pool, d := OneOut(Made(32, 4096, 128), TWO32 - 4096);
    ghost var k, b;
    how, k, b := pool.Free(d);
  }

  /** An address inside a block takes the whole block back. */
  method FreedFromInside() returns (pool: Pool, d: nat, how: Release)
    ensures fresh(pool) && pool.Valid() && how == Released && !pool.Out(d)
    ensures TakenTotal(pool.pages, pool.blocksPerPage) == 0
  {
    pool, d := OneOut(Made(32, 4096, 128), 0);
    ghost var k, b;
    how, k, b := pool.Free(d + 1);
  }

  /** With 127-byte blocks the bitmap of a page has no bit to spare for its last 32 bytes. */
  method WritesPastBitmap() returns (made: Created, pool: Pool, how: Release)
    ensures made == PoolCreate(127, 0, 0) == Made(127, 4096, 32)
    ensures fresh(pool) && pool.Valid() && how == PastBitmap
  {
    made := PoolCreate(127, 0, 0);
    var d;
    pool, d := OneOut(made, 0);
    ghost var k, b;
    how, k, b := pool.Free(4080);
  }
}
