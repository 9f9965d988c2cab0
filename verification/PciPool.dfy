/** The pool of small DMA blocks carved out of consistent pages: a list of pages, each with a
    bitmap of 32-bit words in which a set bit marks a free block. */
module PciPool {
  import opened Arith
  import opened Options

  const BITS_PER_LONG: nat := 32
  const PAGE_SIZE: nat := 4096

  // ----- creating a pool -------------------------------------------------------

  datatype Created =
    | Rejected
    | DividesByZero
    | Made(size: nat, allocation: nat, blocksPerPage: nat)

  /** n & ~m. */
  function Masked(n: nat, m: nat): (r: nat)
    ensures r <= n
  {
    if n == 0 then 0 else 2 * Masked(n / 2, m / 2) + if m % 2 == 1 then 0 else n % 2
  }

  predicate PowerOfTwo(n: nat) {
    n == 1 || (n % 2 == 0 && n != 0 && PowerOfTwo(n / 2))
  }

  /** For the powers of two that alignments are, the mask keeps the multiples. */
  lemma {:induction false} MaskIsFloor(n: nat, align: nat)
    requires PowerOfTwo(align)
    ensures Masked(n, align - 1) == Floor(n, align)
    decreases align
  {
    hide Floor;
    if align == 1 {
      NoMask(n);
      FloorOne(n);
    } else {
      var half := align / 2;
      FloorHalf(n, half);
      MaskIsFloor(n / 2, half);
      MaskHalf(n, half);
    }
  }

  lemma MaskHalf(n: nat, half: nat)
    requires 0 < half
    ensures Masked(n, 2 * half - 1) == 2 * Masked(n / 2, half - 1)
  {
    assert (2 * half - 1) / 2 == half - 1;
  }

  lemma {:induction false} NoMask(n: nat)
    ensures Masked(n, 0) == n
  {
    if n != 0 {
      NoMask(n / 2);
    }
  }

  /** The rounding of pci_pool_create, in 32-bit arithmetic. */
  function RoundedSize(size: nat, align: nat): nat
    requires 0 < align
  {
    if size < align then align
    else if size % align != 0 then Masked((size + align + 1) % TWO32, align - 1)
    else size
  }

  /** pci_pool_create. */
  function PoolCreate(size0: nat, align0: nat, allocation0: nat): Created {
    var align := if align0 == 0 then 1 else align0;
    if size0 == 0 then Rejected
    else
      var size := RoundedSize(size0, align);
      if allocation0 != 0 && allocation0 < size then Rejected
      else
        var allocation := if allocation0 != 0 then allocation0 else if PAGE_SIZE < size then size else PAGE_SIZE;
        if size == 0 then DividesByZero else Made(size, allocation, allocation / size)
  }

  /** The least multiple of `align` that is not below `size`. */
  ghost predicate LeastMultiple(r: nat, size: nat, align: nat)
    requires 0 < align
  {
    r % align == 0 && size <= r < size + align
  }

  /** Rounding gives a multiple of the alignment that holds a block exactly when the 32-bit sum does
      not wrap round; it gives the least such multiple exactly when, moreover, the size is not one
      less than a multiple (when it takes one multiple too many). */
  lemma RoundingIsExactly(size: nat, align: nat)
    requires PowerOfTwo(align) && align <= 0x8000_0000 && 0 < size < TWO32
    ensures RoundedSize(size, align) % align == 0
    ensures RoundedSize(size, align) >= size <==>
            size < align || size % align == 0 || size + align + 1 < TWO32
    ensures LeastMultiple(RoundedSize(size, align), size, align) <==>
            size < align || size % align == 0 || (size + align + 1 < TWO32 && size % align != align - 1)
  {
    hide Masked, PowerOfTwo, Floor;
    var sum := (size + align + 1) % TWO32;
    MaskIsFloor(sum, align);
    if size < align {
      assert align % align == 0;
    } else if size % align != 0 {
      WordSum(size + align + 1, sum);
      RoundsUp(size, align, sum);
    }
  }

  lemma WordSum(n: nat, sum: nat)
    requires n < 2 * TWO32 && sum == n % TWO32
    ensures sum == if n < TWO32 then n else n - TWO32
  {
  }

  lemma RoundsUp(size: nat, align: nat, sum: nat)
    requires 0 < align <= size < TWO32 && align <= 0x8000_0000
    requires sum == (if size + align + 1 < TWO32 then size + align + 1 else size + align + 1 - TWO32)
    ensures Floor(sum, align) % align == 0 && (Floor(sum, align) >= size <==> size + align + 1 < TWO32)
    ensures size % align != 0 ==>
              (LeastMultiple(Floor(sum, align), size, align) <==>
                 size + align + 1 < TWO32 && size % align != align - 1)
  {
    hide Floor;
    FloorIsMultiple(sum, align);
    FloorNext(size, align);
  }

  /** Seven bytes at alignment four take twelve; and at an alignment that is no power of two the
      result is not even a multiple. */
  lemma RoundedTooFar()
    ensures RoundedSize(7, 4) == 12 && RoundedSize(4, 3) == 8
  {
    assert Masked(12, 3) == 2 * Masked(6, 1) && Masked(6, 1) == 2 * Masked(3, 0);
    NoMask(3);
    assert Masked(8, 2) == 2 * Masked(4, 1) && Masked(4, 1) == 2 * Masked(2, 0);
    NoMask(2);
  }

  /** A pool that is made has room for a block in every page, and the allocation asked for.  The one
      way past the checks without a pool is a size so large that its rounding wraps round to 0. */
  lemma CreatedIsUsable(size: nat, align0: nat, allocation0: nat)
    requires size < TWO32 && align0 <= 0x8000_0000 && (align0 == 0 || PowerOfTwo(align0))
    ensures var align := if align0 == 0 then 1 else align0;
            var r := PoolCreate(size, align0, allocation0);
            && (r.Made? ==>
                  && r.size == RoundedSize(size, align)
                  && r.allocation == (if allocation0 != 0 then allocation0
                                      else if r.size <= PAGE_SIZE then PAGE_SIZE else r.size)
                  && 0 < r.size <= r.allocation && 0 < r.blocksPerPage == r.allocation / r.size)
            && (r.Rejected? <==> size == 0 || 0 < allocation0 < RoundedSize(size, align))
            && (r.DividesByZero? <==> align <= size && size % align != 0 && TWO32 <= size + align + 1 < TWO32 + align)
  {
    var align := if align0 == 0 then 1 else align0;
    var r := PoolCreate(size, align0, allocation0);
    hide RoundedSize;
    if size < align || size % align == 0 {
      RoundedSizeIs(size, align);
    }
    if r.Made? {
      QuotientPositive(r.allocation, r.size);
    }
    if align <= size && size % align != 0 {
      RoundsToZero(size, align);
    }
  }

  lemma RoundedSizeIs(size: nat, align: nat)
    requires 0 < align && (size < align || size % align == 0)
    ensures RoundedSize(size, align) == if size < align then align else size
  {
  }

  lemma RoundsToZero(size: nat, align: nat)
    requires PowerOfTwo(align) && align <= size < TWO32 && align <= 0x8000_0000 && size % align != 0
    ensures RoundedSize(size, align) == 0 <==> TWO32 <= size + align + 1 < TWO32 + align
  {
    hide Floor, Masked, PowerOfTwo;
    var sum := (size + align + 1) % TWO32;
    MaskIsFloor(sum, align);
    FloorZero(sum, align);
  }

  lemma HugeSizeDivides()
    ensures PoolCreate(0xFFFF_FFFD, 4, 0) == DividesByZero
  {
    assert PowerOfTwo(4) by {
      assert PowerOfTwo(2);
    }
    CreatedIsUsable(0xFFFF_FFFD, 4, 0);
  }

  // ----- bitmaps -----------------------------------------------------------------

  /** One word of a bitmap, low bit first. */
  type Word = w: seq<bool> | |w| == BITS_PER_LONG witness seq(BITS_PER_LONG, _ => false)

  const ZERO: Word := seq(BITS_PER_LONG, _ => false)
  const ONES: Word := seq(BITS_PER_LONG, _ => true)

  datatype Page = Page(vaddr: int, dma: nat, bitmap: seq<Word>)

  /** Bit `b` of the bitmap is set: block `b` is free. */
  predicate FreeBit(bitmap: seq<Word>, b: nat)
    requires b < BITS_PER_LONG * |bitmap|
  {
    bitmap[b / BITS_PER_LONG][b % BITS_PER_LONG]
  }

  function SetBit(bitmap: seq<Word>, b: nat, value: bool): (r: seq<Word>)
    requires b < BITS_PER_LONG * |bitmap|
    ensures |r| == |bitmap|
    ensures forall c: nat :: c < BITS_PER_LONG * |bitmap| ==>
              FreeBit(r, c) == if c == b then value else FreeBit(bitmap, c)
  {
    bitmap[b / BITS_PER_LONG := bitmap[b / BITS_PER_LONG][b % BITS_PER_LONG := value]]
  }

  /** Taking a block back restores the bitmap it was handed out of. */
  lemma FreeUndoesHand(bitmap: seq<Word>, b: nat)
    requires b < BITS_PER_LONG * |bitmap| && FreeBit(bitmap, b)
    ensures SetBit(SetBit(bitmap, b, false), b, true) == bitmap
  {
    var w := bitmap[b / BITS_PER_LONG];
    assert w[b % BITS_PER_LONG := false][b % BITS_PER_LONG := true] == w;
  }

  lemma SetAgain(bitmap: seq<Word>, b: nat)
    requires b < BITS_PER_LONG * |bitmap|
    ensures FreeBit(bitmap, b) ==> SetBit(bitmap, b, true) == bitmap
  {
    var w := bitmap[b / BITS_PER_LONG];
    assert w[b % BITS_PER_LONG] ==> w[b % BITS_PER_LONG := true] == w;
  }

  /** Words needed for `blocks` bits. */
  function Words(blocks: nat): (n: nat)
    ensures BITS_PER_LONG * n >= blocks > BITS_PER_LONG * (n - 1)
  {
    (blocks + BITS_PER_LONG - 1) / BITS_PER_LONG
  }

  /** A page's bitmap has the words it needs, and the bits past the last block are set. */
  predicate BitmapOk(bitmap: seq<Word>, blocks: nat) {
    |bitmap| == Words(blocks) && forall b: nat :: blocks <= b < BITS_PER_LONG * |bitmap| ==> FreeBit(bitmap, b)
  }

  /** ffz(~w): the number of the lowest set bit. */
  method LowestSet(w: Word) returns (k: nat)
    requires w != ZERO
    ensures k < BITS_PER_LONG && w[k] && forall j :: 0 <= j < k ==> !w[j]
  {
    ghost var top :| 0 <= top < BITS_PER_LONG && w[top] != ZERO[top];
    k := 0;
    while !w[k]
      invariant k <= top && forall j :: 0 <= j < k ==> !w[j]
      decreases top - k
    {
      k := k + 1;
    }
  }

  /** is_page_busy. */
  method IsPageBusy(blocks0: nat, bitmap: seq<Word>) returns (busy: bool)
    requires BitmapOk(bitmap, blocks0)
    ensures busy <==> exists b: nat :: b < blocks0 && !FreeBit(bitmap, b)
  {
    var blocks: int, n := blocks0, 0;
    while blocks > 0
      invariant 0 <= n <= |bitmap| && blocks == blocks0 - BITS_PER_LONG * n
      invariant forall b: nat :: b < BITS_PER_LONG * n ==> FreeBit(bitmap, b)
    {
      if bitmap[n] != ONES {
        var k :| 0 <= k < BITS_PER_LONG && !bitmap[n][k];
        assert !FreeBit(bitmap, BITS_PER_LONG * n + k);
        return true;
      }
      n := n + 1;
      blocks := blocks - BITS_PER_LONG;
    }
    return false;
  }

  /** The scan of one page in pci_pool_alloc: the lowest free block, or `blocks` if there is none. */
  method FindFree(blocks: nat, bitmap: seq<Word>) returns (b: nat)
    requires BitmapOk(bitmap, blocks)
    ensures b <= blocks && (b < blocks ==> FreeBit(bitmap, b))
    ensures forall c: nat :: c < b ==> !FreeBit(bitmap, c)
  {
    var n, i := 0, 0;
    while i < blocks
      invariant i == BITS_PER_LONG * n
      invariant forall c: nat :: c < i && c < blocks ==> !FreeBit(bitmap, c)
    {
      if bitmap[n] != ZERO {
        var block := LowestSet(bitmap[n]);
        assert forall c: nat :: i <= c < i + block ==> c / BITS_PER_LONG == n && c % BITS_PER_LONG == c - i;
        if i + block < blocks {
          return i + block;
        }
      }
      i := i + BITS_PER_LONG;
      n := n + 1;
    }
    return blocks;
  }

  // ----- the blocks of a pool ------------------------------------------------------

  /** What every page list keeps: 0 < size <= allocation, whole bitmaps, and pages whose bus
      addresses are disjoint and do not wrap round. */
  ghost predicate PoolOk(pages: seq<Page>, size: nat, allocation: nat, blocks: nat) {
    && 0 < size <= allocation && blocks == allocation / size
    && WholeBitmaps(pages, blocks)
    && (forall k :: 0 <= k < |pages| ==> pages[k].dma + allocation <= TWO32)
    && (forall j, k :: 0 <= j < k < |pages| ==> Disjoint(pages[j].dma, pages[k].dma, allocation))
  }

  /** Two stretches of `len` bytes at `a` and at `b` share no byte. */
  predicate Disjoint(a: int, b: int, len: nat) {
    a + len <= b || b + len <= a
  }

  predicate Taken(pages: seq<Page>, blocks: nat, k: int, b: int) {
    0 <= k < |pages| && 0 <= b < blocks <= BITS_PER_LONG * |pages[k].bitmap| && !FreeBit(pages[k].bitmap, b)
  }

  /** Block `b` of page `k` is free, and every block before it, of this page and those before it, taken. */
  ghost predicate FirstFree(pages: seq<Page>, blocks: nat, k: int, b: int) {
    && 0 <= k < |pages| && 0 <= b < blocks && !Taken(pages, blocks, k, b)
    && (forall c :: 0 <= c < b ==> Taken(pages, blocks, k, c))
    && (forall j, c :: 0 <= j < k && 0 <= c < blocks ==> Taken(pages, blocks, j, c))
  }

  /** `d` is the bus address of a block that has been handed out. */
  ghost predicate Outstanding(pages: seq<Page>, size: nat, blocks: nat, d: int) {
    exists k, b :: Taken(pages, blocks, k, b) && d == pages[k].dma + b * size
  }

  /** Block `b` lies inside its page. */
  lemma BlockInside(size: nat, allocation: nat, b: nat)
    requires 0 < size <= allocation && b < allocation / size
    ensures 0 <= b * size && b * size + size <= allocation
  {
    DivBounds(allocation, size);
    MulMono(b + 1, allocation / size, size);
    MulMono(0, b, size);
    assert (b + 1) * size == b * size + size;
  }

  /** Different blocks do not overlap, whichever pages they are in. */
  lemma BlocksDisjoint(pages: seq<Page>, size: nat, allocation: nat, blocks: nat, k: nat, b: nat, k': nat, b': nat)
    requires PoolOk(pages, size, allocation, blocks)
    requires k < |pages| && k' < |pages| && b < blocks && b' < blocks && (k != k' || b != b')
    ensures Disjoint(pages[k].dma + b * size, pages[k'].dma + b' * size, size)
  {
    hide WholeBitmaps;
    BlockInside(size, allocation, b);
    BlockInside(size, allocation, b');
    if k == k' {
      if b < b' {
        MulMono(b + 1, b', size);
        OneMore(b, size);
      } else {
        MulMono(b' + 1, b, size);
        OneMore(b', size);
      }
    } else {
      assert Disjoint(pages[if k < k' then k else k'].dma, pages[if k < k' then k' else k].dma, allocation);
    }
  }

  /** In every good pool two outstanding blocks are the same or share no byte, and each lies in one
      page's allocation at a multiple of the block size. */
  lemma OutstandingDisjoint(pages: seq<Page>, size: nat, allocation: nat, blocks: nat, d: int, d': int)
    requires PoolOk(pages, size, allocation, blocks)
    ensures Outstanding(pages, size, blocks, d) && Outstanding(pages, size, blocks, d') && d != d' ==>
              Disjoint(d, d', size)
    ensures Outstanding(pages, size, blocks, d) ==>
              exists k, b :: Taken(pages, blocks, k, b) && d == pages[k].dma + b * size
                && pages[k].dma <= d && d + size <= pages[k].dma + allocation
  {
    if Outstanding(pages, size, blocks, d) {
      var k, b :| Taken(pages, blocks, k, b) && d == pages[k].dma + b * size;
      BlockInside(size, allocation, b);
      if Outstanding(pages, size, blocks, d') && d != d' {
        var k', b' :| Taken(pages, blocks, k', b') && d' == pages[k'].dma + b' * size;
        BlocksDisjoint(pages, size, allocation, blocks, k, b, k', b');
      }
    }
  }

  /** Handing out, or taking back, block `b` of page `k` changes what is outstanding by exactly the
      address of that block. */
  lemma OneBlock(pages: seq<Page>, pages': seq<Page>, size: nat, allocation: nat, blocks: nat,
                 k: nat, b: nat, free: bool)
    requires PoolOk(pages, size, allocation, blocks) && k < |pages| && b < blocks
    requires pages' == pages[k := pages[k].(bitmap := SetBit(pages[k].bitmap, b, free))]
    ensures PoolOk(pages', size, allocation, blocks)
    ensures forall d: int {:trigger Outstanding(pages', size, blocks, d)} ::
              Outstanding(pages', size, blocks, d) <==>
              if d == pages[k].dma + b * size then !free else Outstanding(pages, size, blocks, d)
  {
    var own := pages[k].dma + b * size;
    forall d: int
      ensures Outstanding(pages', size, blocks, d) <==> if d == own then !free else Outstanding(pages, size, blocks, d)
    {
      if d == own {
        if !free {
          assert Taken(pages', blocks, k, b);
        } else if Outstanding(pages', size, blocks, d) {
          var j, c :| Taken(pages', blocks, j, c) && d == pages'[j].dma + c * size;
          BlocksDisjoint(pages, size, allocation, blocks, k, b, j, c);
        }
      } else {
        if Outstanding(pages', size, blocks, d) {
          var j, c :| Taken(pages', blocks, j, c) && d == pages'[j].dma + c * size;
          assert Taken(pages, blocks, j, c);
        }
        if Outstanding(pages, size, blocks, d) {
          var j, c :| Taken(pages, blocks, j, c) && d == pages[j].dma + c * size;
          assert Taken(pages', blocks, j, c);
        }
      }
    }
  }

  // ----- counting ------------------------------------------------------------------

  /** Blocks below `n` of one page that are handed out. */
  function TakenCount(bitmap: seq<Word>, n: nat): (t: nat)
    requires n <= BITS_PER_LONG * |bitmap|
    ensures t <= n
  {
    if n == 0 then 0 else TakenCount(bitmap, n - 1) + if FreeBit(bitmap, n - 1) then 0 else 1
  }

  function FreeCount(bitmap: seq<Word>, n: nat): (f: nat)
    requires n <= BITS_PER_LONG * |bitmap|
  {
    if n == 0 then 0 else FreeCount(bitmap, n - 1) + if FreeBit(bitmap, n - 1) then 1 else 0
  }

  predicate WholeBitmaps(pages: seq<Page>, blocks: nat) {
    forall k :: 0 <= k < |pages| ==> BitmapOk(pages[k].bitmap, blocks)
  }

  function TakenTotal(pages: seq<Page>, blocks: nat): nat
    requires WholeBitmaps(pages, blocks)
  {
    if pages == [] then 0 else TakenTotal(pages[1..], blocks) + TakenCount(pages[0].bitmap, blocks)
  }

  function FreeTotal(pages: seq<Page>, blocks: nat): nat
    requires WholeBitmaps(pages, blocks)
  {
    if pages == [] then 0 else FreeTotal(pages[1..], blocks) + FreeCount(pages[0].bitmap, blocks)
  }

  lemma {:induction false} CountUpdate(bitmap: seq<Word>, n: nat, b: nat, free: bool)
    requires n <= BITS_PER_LONG * |bitmap| && b < BITS_PER_LONG * |bitmap|
    ensures TakenCount(SetBit(bitmap, b, free), n) ==
            TakenCount(bitmap, n) + if b < n && FreeBit(bitmap, b) != free then (if free then -1 else 1) else 0
  {
    if n != 0 {
      CountUpdate(bitmap, n - 1, b, free);
    }
  }

  lemma {:induction false} AllFree(bitmap: seq<Word>, n: nat)
    requires n <= BITS_PER_LONG * |bitmap| && forall b: nat :: b < n ==> FreeBit(bitmap, b)
    ensures TakenCount(bitmap, n) == 0
  {
    if n != 0 {
      AllFree(bitmap, n - 1);
    }
  }

  /** Handing out a free block counts one more, taking back a taken one counts one fewer. */
  lemma {:induction false} TakenTotalUpdate(pages: seq<Page>, blocks: nat, k: nat, b: nat, free: bool)
    requires WholeBitmaps(pages, blocks) && k < |pages| && BitmapOk(pages[k].bitmap, blocks) && b < blocks
    requires FreeBit(pages[k].bitmap, b) != free
    ensures WholeBitmaps(pages[k := pages[k].(bitmap := SetBit(pages[k].bitmap, b, free))], blocks)
    ensures TakenTotal(pages[k := pages[k].(bitmap := SetBit(pages[k].bitmap, b, free))], blocks) ==
            TakenTotal(pages, blocks) + if free then -1 else 1
  {
    var pages' := pages[k := pages[k].(bitmap := SetBit(pages[k].bitmap, b, free))];
    if k == 0 {
      CountUpdate(pages[0].bitmap, blocks, b, free);
      assert pages'[1..] == pages[1..];
    } else {
      TakenTotalUpdate(pages[1..], blocks, k - 1, b, free);
      assert pages'[1..] == pages[1..][k - 1 := pages'[k]];
    }
  }

  lemma {:induction false} CountBoth(bitmap: seq<Word>, n: nat)
    requires n <= BITS_PER_LONG * |bitmap|
    ensures TakenCount(bitmap, n) + FreeCount(bitmap, n) == n
  {
    if n != 0 {
      CountBoth(bitmap, n - 1);
    }
  }

  /** Blocks are conserved: handed-out and free blocks together are the blocks of all the pages. */
  lemma {:induction false} Conservation(pages: seq<Page>, blocks: nat)
    requires WholeBitmaps(pages, blocks)
    ensures TakenTotal(pages, blocks) + FreeTotal(pages, blocks) == |pages| * blocks
  {
    if pages != [] {
      var rest := pages[1..];
      CountBoth(pages[0].bitmap, blocks);
      Conservation(rest, blocks);
      OneMore(|rest|, blocks);
      assert |pages| == |rest| + 1;
    }
  }

  // ----- the pool ------------------------------------------------------------------

  /** In `after` one more block is outstanding than in `before`, the one at `d0`. */
  ghost predicate HandedOut(before: seq<Page>, after: seq<Page>, size: nat, blocks: nat, d0: int) {
    && !Outstanding(before, size, blocks, d0)
    && forall d: int :: Outstanding(after, size, blocks, d) <==> d == d0 || Outstanding(before, size, blocks, d)
  }

  /** The two addresses of the first free block. */
  ghost predicate FirstFreeAt(pages: seq<Page>, size: nat, blocks: nat, at: (int, int)) {
    exists k, b :: FirstFree(pages, blocks, k, b) && at == (pages[k].vaddr + b * size, pages[k].dma + b * size)
  }

  /** A block that is handed out has these two addresses. */
  ghost predicate BlockAt(pages: seq<Page>, size: nat, blocks: nat, vaddr: int, dma: int) {
    exists k, b :: Taken(pages, blocks, k, b) && vaddr == pages[k].vaddr + b * size && dma == pages[k].dma + b * size
  }

  lemma BlockIsAt(pages: seq<Page>, size: nat, blocks: nat, k: nat, b: nat)
    requires Taken(pages, blocks, k, b)
    ensures BlockAt(pages, size, blocks, pages[k].vaddr + b * size, pages[k].dma + b * size)
  {
  }

  ghost predicate SameOut(before: seq<Page>, after: seq<Page>, size: nat, blocks: nat) {
    forall d: int :: Outstanding(after, size, blocks, d) <==> Outstanding(before, size, blocks, d)
  }

  lemma SameThenHandedOut(a: seq<Page>, b: seq<Page>, c: seq<Page>, size: nat, blocks: nat, d0: int)
    requires SameOut(a, b, size, blocks) && HandedOut(b, c, size, blocks, d0)
    ensures HandedOut(a, c, size, blocks, d0)
  {
  }

  /** A page with every bit set, put in front, leaves the outstanding blocks as they were. */
  lemma NewPage(before: seq<Page>, page: Page, size: nat, blocks: nat)
    requires WholeBitmaps(before, blocks) && page.bitmap == seq(Words(blocks), _ => ONES)
    ensures SameOut(before, [page] + before, size, blocks)
    ensures WholeBitmaps([page] + before, blocks)
    ensures TakenTotal([page] + before, blocks) == TakenTotal(before, blocks)
  {
    var after := [page] + before;
    forall d: int ensures Outstanding(after, size, blocks, d) <==> Outstanding(before, size, blocks, d) {
      if Outstanding(after, size, blocks, d) {
        var k, b :| Taken(after, blocks, k, b) && d == after[k].dma + b * size;
        assert Taken(before, blocks, k - 1, b);
      }
      if Outstanding(before, size, blocks, d) {
        var k, b :| Taken(before, blocks, k, b) && d == before[k].dma + b * size;
        assert Taken(after, blocks, k + 1, b);
      }
    }
    assert after[1..] == before;
    AllFree(page.bitmap, blocks);
  }

  /** The same memory, whatever is handed out of it. */
  predicate SamePages(a: seq<Page>, b: seq<Page>) {
    |a| == |b| && forall k :: 0 <= k < |a| ==> a[k].vaddr == b[k].vaddr && a[k].dma == b[k].dma
  }

  lemma SamePagesBehind(first: Page, first': Page, a: seq<Page>, b: seq<Page>)
    requires first.vaddr == first'.vaddr && first.dma == first'.dma && SamePages([first'] + a, b)
    ensures SamePages([first] + a, b)
  {
  }

  lemma SamePagesAgain(a: seq<Page>)
    ensures SamePages(a, a)
  {
  }

  function BlockNumber(offset: nat, size: nat): (b: nat)
    requires 0 < size
    ensures b == offset / size
  {
    DivMono(0, offset, size);
    offset / size
  }

  /** How pci_pool_free ends; the last is a write outside the bitmap. */
  datatype Release = NoPage | Released | PastBitmap

  predicate InPage(page: Page, allocation: nat, dma: int) {
    page.dma <= dma < page.dma + allocation
  }

  /** The 32-bit end of a page is 0 if it ends at 2^32. */
  predicate EndsAtTop(page: Page, allocation: nat) {
    page.dma + allocation == TWO32
  }

  /** What pool_find_page takes a page for an address by. */
  predicate Found(page: Page, allocation: nat, dma: int) {
    InPage(page, allocation, dma) && !EndsAtTop(page, allocation)
  }

  lemma EndWraps(page: Page, allocation: nat, dma: nat)
    requires page.dma + allocation <= TWO32
    ensures page.dma <= dma < (page.dma + allocation) % TWO32 <==> Found(page, allocation, dma)
  {
  }

  predicate InTopPage(pages: seq<Page>, allocation: nat, dma: int) {
    exists k :: 0 <= k < |pages| && InPage(pages[k], allocation, dma) && EndsAtTop(pages[k], allocation)
  }

  class Pool {
    const size: nat
    const allocation: nat
    const blocksPerPage: nat
    var pages: seq<Page>       // page_list

    ghost predicate Valid()
      reads this
    {
      PoolOk(pages, size, allocation, blocksPerPage)
    }

    ghost predicate Out(d: int)
      reads this
    {
      Outstanding(pages, size, blocksPerPage, d)
    }

    constructor (made: Created)
      requires made.Made? && 0 < made.size <= made.allocation && made.blocksPerPage == made.allocation / made.size
      ensures Valid() && pages == [] && size == made.size && allocation == made.allocation
    {
      size, allocation, blocksPerPage := made.size, made.allocation, made.blocksPerPage;
      pages := [];
    }

    /** Memory that pci_alloc_consistent may give: it does not wrap round and is not in use. */
    ghost predicate Usable(mem: Option<(int, nat)>)
      reads this
    {
      mem.Some? ==> mem.value.1 + allocation <= TWO32
                    && forall k :: 0 <= k < |pages| ==> Disjoint(pages[k].dma, mem.value.1, allocation)
    }

    /** Every block of every page has been handed out. */
    ghost predicate Full()
      reads this
    {
      forall k, b :: 0 <= k < |pages| && 0 <= b < blocksPerPage ==> Taken(pages, blocksPerPage, k, b)
    }

    /** pool_alloc_page, given the outcome of the two allocations it makes. */
    method AllocPage(mem: Option<(int, nat)>) returns (ok: bool)
      requires Valid() && Usable(mem)
      modifies this
      ensures Valid() && ok == mem.Some?
      ensures !ok ==> pages == old(pages)
      ensures ok ==> pages == [Page(mem.value.0, mem.value.1, seq(Words(blocksPerPage), _ => ONES))] + old(pages)
      ensures ok ==> 0 < blocksPerPage && FreeBit(pages[0].bitmap, 0)
      ensures SameOut(old(pages), pages, size, blocksPerPage)
      ensures TakenTotal(pages, blocksPerPage) == TakenTotal(old(pages), blocksPerPage)
    {
      if mem == None {
        return false;
      }
      var page := Page(mem.value.0, mem.value.1, seq(Words(blocksPerPage), _ => ONES));
      NewPage(pages, page, size, blocksPerPage);
      pages := [page] + pages;
      return true;
    }

    /** clear_bit or set_bit on bit `b` of the bitmap of page `k`; only set_bit is done past the last block. */
    method Mark(k: nat, b: nat, free: bool)
      requires Valid() && k < |pages| && b < BITS_PER_LONG * |pages[k].bitmap| && (b < blocksPerPage || free)
      modifies this
      ensures Valid() && pages == old(pages)[k := old(pages)[k].(bitmap := SetBit(old(pages)[k].bitmap, b, free))]
      ensures b < blocksPerPage ==>
                forall d: int ::
                  Outstanding(pages, size, blocksPerPage, d) <==>
                    if d == old(pages)[k].dma + b * size then !free else Outstanding(old(pages), size, blocksPerPage, d)
    {
      var page := pages[k].(bitmap := SetBit(pages[k].bitmap, b, free));
      if b < blocksPerPage {
        OneBlock(pages, pages[k := page], size, allocation, blocksPerPage, k, b, free);
      }
      pages := pages[k := page];
    }

    /** One attempt of pci_pool_alloc: the virtual and the bus address of the first free block, of a new
        page only if there is none, and nothing only if there is no new page either. */
    method Alloc(mem: Option<(int, nat)>) returns (r: Option<(int, nat)>)
      requires Valid() && Usable(mem)
      modifies this
      ensures Valid()
      ensures r == None <==> old(Full()) && mem == None
      ensures r == None ==> pages == old(pages)
      ensures |pages| > |old(pages)| <==> old(Full()) && mem.Some?
      ensures r.Some? ==>
                SamePages(if old(Full()) then [Page(mem.value.0, mem.value.1, [])] + old(pages) else old(pages), pages)
      ensures r.Some? ==> HandedOut(old(pages), pages, size, blocksPerPage, r.value.1)
      ensures r.Some? ==> BlockAt(pages, size, blocksPerPage, r.value.0, r.value.1)
      ensures r.Some? ==> if old(Full()) then r == mem else FirstFreeAt(old(pages), size, blocksPerPage, r.value)
      ensures r.Some? ==>
                TakenTotal(pages, blocksPerPage) == TakenTotal(old(pages), blocksPerPage) + 1
    {
      hide HandedOut, SameOut, TakenTotal, Taken, FreeBit, PoolOk, BlockAt, FirstFree;
      ghost var before := pages;
      var k, b := FindBlock();
      if k == |pages| {
        var ok := AllocPage(mem);
        if !ok {
          return None;
        }
        ghost var grown := pages;
        r := Hand(0, 0);
        SameThenHandedOut(before, grown, pages, size, blocksPerPage, r.value.1);
        SamePagesBehind(Page(mem.value.0, mem.value.1, []), grown[0], before, pages);
        return;
      }
      r := Hand(k, b);
    }

    /** The scan of pci_pool_alloc: the first free block of the first page that has one. */
    method FindBlock() returns (k: nat, b: nat)
      requires Valid()
      ensures k <= |pages|
      ensures k < |pages| ==> b < blocksPerPage && FreeBit(pages[k].bitmap, b) && !Full()
      ensures k < |pages| ==> FirstFree(pages, blocksPerPage, k, b)
      ensures k == |pages| ==> Full()
    {
      k, b := 0, 0;
      while k < |pages|
        invariant 0 <= k <= |pages|
        invariant forall j, c :: 0 <= j < k && 0 <= c < blocksPerPage ==> Taken(pages, blocksPerPage, j, c)
      {
        b := FindFree(blocksPerPage, pages[k].bitmap);
        if b < blocksPerPage {
          assert !Taken(pages, blocksPerPage, k, b);
          return;
        }
        k := k + 1;
      }
    }

    /** Hand out block `b` of page `k`, which is free. */
    method Hand(k: nat, b: nat) returns (r: Option<(int, nat)>)
      requires Valid() && k < |pages| && b < blocksPerPage && FreeBit(pages[k].bitmap, b)
      modifies this
      ensures Valid() && |pages| == |old(pages)| && SamePages(old(pages), pages) && r.Some?
      ensures HandedOut(old(pages), pages, size, blocksPerPage, r.value.1)
      ensures Taken(pages, blocksPerPage, k, b) && r.value == (pages[k].vaddr + b * size, pages[k].dma + b * size)
      ensures BlockAt(pages, size, blocksPerPage, r.value.0, r.value.1)
      ensures TakenTotal(pages, blocksPerPage) == TakenTotal(old(pages), blocksPerPage) + 1
    {
      hide BlockAt;
      NotOut(k, b);
      BlockInside(size, allocation, b);
      TakenTotalUpdate(pages, blocksPerPage, k, b, false);
      Mark(k, b, false);
      r := Some((b * size + pages[k].vaddr, b * size + pages[k].dma));
      BlockIsAt(pages, size, blocksPerPage, k, b);
    }

    lemma NotOut(k: nat, b: nat)
      requires Valid() && k < |pages| && b < blocksPerPage && FreeBit(pages[k].bitmap, b)
      ensures !Out(pages[k].dma + b * size)
    {
      var d := pages[k].dma + b * size;
      if Out(d) {
        var j, c :| Taken(pages, blocksPerPage, j, c) && d == pages[j].dma + c * size;
        BlocksDisjoint(pages, size, allocation, blocksPerPage, k, b, j, c);
      }
    }

    /** pool_find_page: the page `dma` is in, or `|pages|`.  The end of a page is a 32-bit sum, so an
        address is found exactly if its page does not end at 2^32. */
    method FindPage(dma: nat) returns (k: nat)
      requires Valid()
      ensures k <= |pages| && (k < |pages| ==> Found(pages[k], allocation, dma))
      ensures forall j :: 0 <= j < |pages| && InPage(pages[j], allocation, dma) ==>
                            if EndsAtTop(pages[j], allocation) then k == |pages| else j == k
    {
      k := 0;
      while k < |pages|
        invariant k <= |pages|
        invariant forall j :: 0 <= j < k ==> !Found(pages[j], allocation, dma)
      {
        EndWraps(pages[k], allocation, dma);
        if dma >= pages[k].dma && dma < (pages[k].dma + allocation) % TWO32 {
          return;
        }
        k := k + 1;
      }
    }

    /** pci_pool_free, with the page `k` and the block `b` the address lies in.  An outstanding block is
        taken back by its address, unless its page ends at 2^32, when the block is lost.  The code does the
        same for every other address inside it, does nothing for one in a free block, and writes past the
        bitmap for one behind the last block of a page whose bitmap has no bit to spare. */
    method Free(dma: nat) returns (r: Release, ghost k: nat, ghost b: nat)
      requires Valid()
      modifies this
      ensures Valid() && SamePages(old(pages), pages)
      ensures r == NoPage <==> forall j :: 0 <= j < |old(pages)| ==> !Found(old(pages)[j], allocation, dma)
      ensures r == NoPage ==> pages == old(pages)
      ensures old(Out(dma)) ==> (r == NoPage <==> InTopPage(old(pages), allocation, dma))
      ensures r != NoPage ==>
                k < |old(pages)| && Found(old(pages)[k], allocation, dma) && b == (dma - old(pages)[k].dma) / size
      ensures r != NoPage ==> (r == PastBitmap <==> b == blocksPerPage && blocksPerPage % BITS_PER_LONG == 0)
      ensures r != NoPage ==>
                var d := old(pages)[k].dma + b * size;
                && (old(Out(dma)) ==> d == dma)
                && (r == PastBitmap ==> !old(Out(d)))
                && if old(Out(d)) then
                     && HandedOut(pages, old(pages), size, blocksPerPage, d)
                     && TakenTotal(pages, blocksPerPage) == TakenTotal(old(pages), blocksPerPage) - 1
                   else pages == old(pages)
    {
      hide HandedOut, TakenTotal, SamePages, Outstanding, FreeBit, PoolOk, Taken;
      var n := FindPage(dma);
      k, b := n, 0;
      if Out(dma) {
        OutSomewhere(dma);
      }
      if n == |pages| {
        SamePagesAgain(pages);
        return NoPage, k, b;
      }
      SizeFits();
      var block := BlockNumber(dma - pages[n].dma, size);
      b := block;
      BlockOf(n, dma, block);
      if Out(dma) {
        StartsBlock(n, dma, block);
      }
      if block >= BITS_PER_LONG * |pages[n].bitmap| {
        OutIsTaken(n, block);
        SamePagesAgain(pages);
        return PastBitmap, k, b;
      }
      ReleaseBit(n, block);
      return Released, k, b;
    }

    lemma SizeFits()
      requires Valid()
      ensures 0 < size <= allocation
    {
    }

    /** set_bit of pci_pool_free. */
    method ReleaseBit(k: nat, b: nat)
      requires Valid() && k < |pages| && b < BITS_PER_LONG * |pages[k].bitmap|
      requires InPage(pages[k], allocation, pages[k].dma + b * size)
      modifies this
      ensures Valid() && SamePages(old(pages), pages)
      ensures var d := old(pages)[k].dma + b * size;
              if old(Out(d)) then
                && HandedOut(pages, old(pages), size, blocksPerPage, d)
                && TakenTotal(pages, blocksPerPage) == TakenTotal(old(pages), blocksPerPage) - 1
              else pages == old(pages)
    {
      OutIsTaken(k, b);
      if !FreeBit(pages[k].bitmap, b) {
        TakenTotalUpdate(pages, blocksPerPage, k, b, true);
      }
      SetAgain(pages[k].bitmap, b);
      Mark(k, b, true);
    }

    /** The block an address of page `k` lies in is one of the page or the one behind its last. */
    lemma BlockOf(k: nat, dma: nat, b: nat)
      requires Valid() && k < |pages| && InPage(pages[k], allocation, dma) && b == (dma - pages[k].dma) / size
      ensures b <= blocksPerPage && InPage(pages[k], allocation, pages[k].dma + b * size)
      ensures b >= BITS_PER_LONG * |pages[k].bitmap| <==> b == blocksPerPage && blocksPerPage % BITS_PER_LONG == 0
    {
      var off := dma - pages[k].dma;
      DivBounds(off, size);
      DivMono(off, allocation, size);
    }

    /** An outstanding block's address lies at the start of it. */
    lemma StartsBlock(k: nat, dma: nat, b: nat)
      requires Valid() && k < |pages| && InPage(pages[k], allocation, dma) && b == (dma - pages[k].dma) / size
      requires Out(dma)
      ensures dma == pages[k].dma + b * size
    {
      OutInPage(k, dma);
      var c: nat :| Taken(pages, blocksPerPage, k, c) && dma == pages[k].dma + c * size;
      MultipleOver(c, size);
    }

    /** Whether a block is outstanding is what its bit says. */
    lemma OutIsTaken(k: nat, b: nat)
      requires Valid() && k < |pages| && InPage(pages[k], allocation, pages[k].dma + b * size)
      ensures Out(pages[k].dma + b * size) <==> b < BITS_PER_LONG * |pages[k].bitmap| && !FreeBit(pages[k].bitmap, b)
    {
      var d := pages[k].dma + b * size;
      if Out(d) {
        OutInPage(k, d);
        var c: nat :| Taken(pages, blocksPerPage, k, c) && d == pages[k].dma + c * size;
        MultipleOver(c, size);
        MultipleOver(b, size);
      }
      if b < BITS_PER_LONG * |pages[k].bitmap| && !FreeBit(pages[k].bitmap, b) {
        assert Taken(pages, blocksPerPage, k, b);
      }
    }

    /** An outstanding block that starts in a page is one of that page. */
    lemma OutInPage(k: nat, d: nat)
      requires Valid() && k < |pages| && InPage(pages[k], allocation, d) && Out(d)
      ensures exists c: nat :: Taken(pages, blocksPerPage, k, c) && d == pages[k].dma + c * size
    {
      var j, c :| Taken(pages, blocksPerPage, j, c) && d == pages[j].dma + c * size;
      BlockInside(size, allocation, c);
      assert j == k;
    }

    /** An outstanding block starts in some page. */
    lemma OutSomewhere(dma: nat)
      requires Valid() && Out(dma)
      ensures exists k :: 0 <= k < |pages| && InPage(pages[k], allocation, dma)
    {
      var j, c :| Taken(pages, blocksPerPage, j, c) && dma == pages[j].dma + c * size;
      BlockInside(size, allocation, c);
      assert InPage(pages[j], allocation, dma);
    }

    /** pci_pool_destroy: idle pages are given back, and pages with a block still out are leaked. */
    method Destroy() returns (freed: seq<Page>, leaked: seq<Page>)
      requires Valid()
      modifies this
      ensures pages == [] && multiset(freed) + multiset(leaked) == multiset(old(pages))
      ensures forall p :: p in leaked ==>
                exists b: nat :: b < blocksPerPage <= BITS_PER_LONG * |p.bitmap| && !FreeBit(p.bitmap, b)
      ensures forall p, b: nat :: p in freed && b < blocksPerPage <= BITS_PER_LONG * |p.bitmap| ==> FreeBit(p.bitmap, b)
    {
      freed, leaked := [], [];
      while pages != []
        invariant forall p :: p in pages ==> BitmapOk(p.bitmap, blocksPerPage)
        invariant multiset(freed) + multiset(leaked) + multiset(pages) == multiset(old(pages))
        invariant forall p :: p in leaked ==>
                    exists b: nat :: b < blocksPerPage <= BITS_PER_LONG * |p.bitmap| && !FreeBit(p.bitmap, b)
        invariant forall p, b: nat :: p in freed && b < blocksPerPage <= BITS_PER_LONG * |p.bitmap| ==>
                    FreeBit(p.bitmap, b)
        decreases |pages|
      {
        var page := pages[0];
        assert pages == [page] + pages[1..];
        var busy := IsPageBusy(blocksPerPage, page.bitmap);
        if busy {
          leaked := leaked + [page];
        } else {
          freed := freed + [page];
        }
        pages := pages[1..];
      }
    }
  }
}
