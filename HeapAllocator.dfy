/** The emulator's heap allocator: address space only, in whole pages. Free
    and allocated regions are kept as two lists of blocks (address, bytes). */
module HeapAlloc {
  import opened Wrappers

  const U64Mod: int := 0x1_0000_0000_0000_0000

  datatype Block = Block(addr: nat, bytes: nat)

  function End(b: Block): nat
  {
    b.addr + b.bytes
  }

  /** MemoryBlock::Intersects: one block starts inside the other. */
  predicate Intersects(a: Block, b: Block)
  {
    (a.addr <= b.addr < End(a)) || (b.addr <= a.addr < End(b))
  }

  lemma IntersectsSymmetric(a: Block, b: Block)
    ensures Intersects(a, b) <==> Intersects(b, a)
  {
  }

  /** The bytes of all blocks of a list. */
  function Total(l: seq<Block>): nat
  {
    if |l| == 0 then 0 else Total(l[..|l| - 1]) + l[|l| - 1].bytes
  }

  lemma {:induction false} TotalConcat(a: seq<Block>, b: seq<Block>)
    ensures Total(a + b) == Total(a) + Total(b)
  {
    if |b| == 0 {
      assert a + b == a;
    } else {
      TotalConcat(a, b[..|b| - 1]);
      assert (a + b)[..|a + b| - 1] == a + b[..|b| - 1];
    }
  }

  function Insert(l: seq<Block>, k: nat, b: Block): (r: seq<Block>)
    requires k <= |l|
    ensures Total(r) == Total(l) + b.bytes
  {
    TotalConcat(l[..k] + [b], l[k..]);
    TotalConcat(l[..k], [b]);
    TotalConcat(l[..k], l[k..]);
    assert l[..k] + l[k..] == l;
    l[..k] + [b] + l[k..]
  }

  function Remove(l: seq<Block>, k: nat): (r: seq<Block>)
    requires k < |l|
    ensures Total(r) + l[k].bytes == Total(l)
  {
    TotalConcat(l[..k], l[k + 1..]);
    TotalConcat(l[..k], [l[k]] + l[k + 1..]);
    TotalConcat([l[k]], l[k + 1..]);
    assert l[..k] + ([l[k]] + l[k + 1..]) == l;
    l[..k] + l[k + 1..]
  }

  lemma TotalUpdate(l: seq<Block>, k: nat, b: Block)
    requires k < |l|
    ensures Total(l[k := b]) + l[k].bytes == Total(l) + b.bytes
  {
    var r := Remove(l, k);
    assert Insert(r, k, b) == l[k := b];
  }

  /** The list covers address x. */
  ghost predicate Covers(l: seq<Block>, x: nat)
  {
    exists k :: 0 <= k < |l| && l[k].addr <= x < End(l[k])
  }

  /** std::find by address: the first block starting at addr. */
  function IndexOf(l: seq<Block>, addr: nat, j: nat): (r: Option<nat>)
    decreases |l| - j
    ensures r.Some? ==> (j <= r.value < |l| && l[r.value].addr == addr &&
      forall k :: j <= k < r.value ==> l[k].addr != addr)
    ensures r.None? ==> forall k :: j <= k < |l| ==> l[k].addr != addr
  {
    if j >= |l| then None else if l[j].addr == addr then Some(j) else IndexOf(l, addr, j + 1)
  }

  /** std::lower_bound by address: the first block not below addr. */
  function LowerBound(l: seq<Block>, addr: nat, j: nat): (r: nat)
    requires j <= |l|
    decreases |l| - j
    ensures j <= r <= |l| && (r < |l| ==> l[r].addr >= addr)
    ensures forall k :: j <= k < r ==> l[k].addr < addr
  {
    if j == |l| || l[j].addr >= addr then j else LowerBound(l, addr, j + 1)
  }

  /** std::upper_bound by address: the first block above addr. */
  function UpperBound(l: seq<Block>, addr: nat, j: nat): (r: nat)
    requires j <= |l|
    decreases |l| - j
    ensures j <= r <= |l| && (r < |l| ==> l[r].addr > addr)
    ensures forall k :: j <= k < r ==> l[k].addr <= addr
  {
    if j == |l| || l[j].addr > addr then j else UpperBound(l, addr, j + 1)
  }

  /** The first free block strictly larger than len (first fit). */
  function FirstFit(l: seq<Block>, len: nat, j: nat): (r: Option<nat>)
    decreases |l| - j
    ensures r.Some? ==> (j <= r.value < |l| && l[r.value].bytes > len &&
      forall k :: j <= k < r.value ==> l[k].bytes <= len)
    ensures r.None? ==> forall k :: j <= k < |l| ==> l[k].bytes <= len
  {
    if j >= |l| then None else if l[j].bytes > len then Some(j) else FirstFit(l, len, j + 1)
  }

  /** MemoryBlock::Contains as written: the end test is strict. */
  predicate ContainsAsWritten(outer: Block, inner: Block)
  {
    outer.addr <= inner.addr && End(inner) < End(outer)
  }

  /** Free(addr, size) as written, on the allocated list alone: the candidate
      is the last block starting at or before addr, and the range is refused
      when the candidate CONTAINS it; the part after the range is computed in
      64-bit arithmetic. */
  function FreeRangeAsWritten(alloc: seq<Block>, addr: nat, size: nat): (r: (bool, seq<Block>))
    requires 0 < UpperBound(alloc, addr, 0)
    ensures !r.0 ==> r.1 == alloc
  {
    var k := UpperBound(alloc, addr, 0) - 1;
    var blk := alloc[k];
    if ContainsAsWritten(blk, Block(addr, size)) then (false, alloc)
    else
      var e := addr + size;
      var afterBytes: nat := (End(blk) - e) % U64Mod;
      var a1 := if afterBytes != 0 then Insert(alloc, k + 1, Block(e, afterBytes)) else alloc;
      var a2 := a1[k := Block(blk.addr, addr - blk.addr)];
      (true, if addr - blk.addr == 0 then Remove(a2, k) else a2)
  }

  /** Freeing the first page of a three-page block is refused as written,
      though the range lies inside the block. */
  lemma FreeHeadRefusedAsWritten()
    ensures var alloc := [Block(0x1000, 0x3000)];
      var r := FreeRangeAsWritten(alloc, 0x1000, 0x1000);
      !r.0 && r.1 == alloc &&
      alloc[0].addr <= 0x1000 && 0x1000 + 0x1000 <= End(alloc[0])
  {
    var alloc := [Block(0x1000, 0x3000)];
    assert UpperBound(alloc, 0x1000, 0) == 1;
  }

  /** Freeing a range beyond the only block is accepted as written, and the
      wrapped size of the "rest of the block" makes the allocated bytes grow. */
  lemma FreeOutsideAcceptedAsWritten()
    ensures var alloc := [Block(0x1000, 0x1000)];
      var r := FreeRangeAsWritten(alloc, 0x5000, 0x1000);
      r.0 && Total(r.1) > Total(alloc)
  {
    var alloc := [Block(0x1000, 0x1000)];
    assert UpperBound(alloc, 0x5000, 0) == 1;
    var r := FreeRangeAsWritten(alloc, 0x5000, 0x1000);
    var afterBytes := (0x2000 - 0x6000) % U64Mod;
    assert afterBytes == U64Mod - 0x4000;
    assert r.1 == [Block(0x1000, 0x4000), Block(0x6000, afterBytes)];
    assert Total(r.1) == 0x4000 + afterBytes;
  }

  /** One merge step keeps the covered addresses. */
  lemma MergeCovers(l: seq<Block>, i: nat, x: nat)
    requires i + 1 < |l| && End(l[i]) == l[i + 1].addr
    ensures var m := l[..i] + [Block(l[i].addr, l[i].bytes + l[i + 1].bytes)] + l[i + 2..];
      Covers(m, x) <==> Covers(l, x)
  {
    var mb := Block(l[i].addr, l[i].bytes + l[i + 1].bytes);
    var m := l[..i] + [mb] + l[i + 2..];
    assert |m| == |l| - 1;
    assert forall k :: 0 <= k < i ==> m[k] == l[k];
    assert forall k :: i < k < |m| ==> m[k] == l[k + 1];
    if Covers(l, x) {
      var k :| 0 <= k < |l| && l[k].addr <= x < End(l[k]);
      if k < i {
        assert m[k] == l[k];
      } else if k == i || k == i + 1 {
        assert m[i].addr <= x < End(m[i]);
      } else {
        assert m[k - 1] == l[k];
      }
    }
    if Covers(m, x) {
      var k :| 0 <= k < |m| && m[k].addr <= x < End(m[k]);
      if k < i {
        assert l[k] == m[k];
      } else if k == i {
        if x < End(l[i]) {
          assert l[i].addr <= x < End(l[i]);
        } else {
          assert l[i + 1].addr <= x < End(l[i + 1]);
        }
      } else {
        assert l[k + 1] == m[k];
      }
    }
  }

  /** No free block ends where the next one starts. */
  ghost predicate NoAdjacent(l: seq<Block>)
  {
    forall k :: 0 <= k && k + 1 < |l| ==> End(l[k]) != l[k + 1].addr
  }

  /** Rounding up to whole pages. */
  function InPages(bytes: nat, pageSize: nat): (r: nat)
    requires pageSize > 0
    ensures r * pageSize >= bytes && r * pageSize < bytes + pageSize
  {
    var q := (bytes + pageSize - 1) / pageSize;
    assert q * pageSize + (bytes + pageSize - 1) % pageSize == bytes + pageSize - 1;
    q
  }

  /** Inserting a block covers its addresses in addition to the list's. */
  lemma InsertCovers(l: seq<Block>, k: nat, b: Block, x: nat)
    requires k <= |l|
    ensures Covers(Insert(l, k, b), x) <==> (Covers(l, x) || b.addr <= x < End(b))
  {
    var r := Insert(l, k, b);
    assert r[k] == b;
    if Covers(l, x) {
      var j :| 0 <= j < |l| && l[j].addr <= x < End(l[j]);
      if j < k {
        assert r[j] == l[j];
      } else {
        assert r[j + 1] == l[j];
      }
    }
    if Covers(r, x) {
      var j :| 0 <= j < |r| && r[j].addr <= x < End(r[j]);
      if j < k {
        assert l[j] == r[j];
      } else if j > k {
        assert l[j - 1] == r[j];
      }
    }
  }

  /** The pieces of blk that stay allocated when [addr, addr+size) inside it
      is freed: the part before the range and the part after it, each kept
      only when it is not empty. */
  function SplitBlock(blk: Block, addr: nat, size: nat): (r: seq<Block>)
    requires blk.addr <= addr && addr + size <= End(blk)
    ensures |r| <= 2 && Total(r) + size == blk.bytes
    ensures forall x: nat :: Covers(r, x) <==> (blk.addr <= x < End(blk) && !(addr <= x < addr + size))
  {
    var e := addr + size;
    var before := if addr - blk.addr != 0 then [Block(blk.addr, addr - blk.addr)] else [];
    var after := if End(blk) - e != 0 then [Block(e, End(blk) - e)] else [];
    TotalConcat(before, after);
    assert Total(before) == addr - blk.addr by {
      if addr - blk.addr != 0 { TotalSingle(before[0]); }
    }
    assert Total(after) == End(blk) - e by {
      if End(blk) - e != 0 { TotalSingle(after[0]); }
    }
    SplitCovers(before, after, blk, addr, e);
    before + after
  }

  lemma SplitCovers(before: seq<Block>, after: seq<Block>, blk: Block, addr: nat, e: nat)
    requires blk.addr <= addr <= e <= End(blk)
    requires before == if addr - blk.addr != 0 then [Block(blk.addr, addr - blk.addr)] else []
    requires after == if End(blk) - e != 0 then [Block(e, End(blk) - e)] else []
    ensures forall x: nat :: Covers(before + after, x) <==> (blk.addr <= x < End(blk) && !(addr <= x < e))
  {
    forall x: nat ensures Covers(before + after, x) <==> (blk.addr <= x < End(blk) && !(addr <= x < e)) {
      var r := before + after;
      if blk.addr <= x < addr {
        assert r[0] == Block(blk.addr, addr - blk.addr);
      } else if e <= x < End(blk) {
        assert r[|before|] == Block(e, End(blk) - e);
      }
    }
  }

  /** Free(addr, size)'s edit of the allocated list: the rest of the block
      after the range is inserted behind it, the block is cut down to the
      part before the range, and dropped when that part is empty. */
  function SplitInList(l: seq<Block>, k: nat, addr: nat, size: nat): (r: seq<Block>)
    requires k < |l| && l[k].addr <= addr && addr + size <= End(l[k])
    ensures r == l[..k] + SplitBlock(l[k], addr, size) + l[k + 1..]
    ensures Total(r) + size == Total(l)
  {
    var blk := l[k];
    var e := addr + size;
    var after := Block(e, End(blk) - e);
    var a1 := if after.bytes != 0 then Insert(l, k + 1, after) else l;
    assert a1[k] == blk;
    var a2 := a1[k := Block(blk.addr, addr - blk.addr)];
    var r := if addr - blk.addr == 0 then Remove(a2, k) else a2;
    SplitTotal(l, k, addr, size);
    assert r == l[..k] + SplitBlock(blk, addr, size) + l[k + 1..];
    r
  }

  lemma SplitTotal(l: seq<Block>, k: nat, addr: nat, size: nat)
    requires k < |l| && l[k].addr <= addr && addr + size <= End(l[k])
    ensures Total(l[..k] + SplitBlock(l[k], addr, size) + l[k + 1..]) + size == Total(l)
  {
    var blk := l[k];
    TotalConcat(l[..k] + SplitBlock(blk, addr, size), l[k + 1..]);
    TotalConcat(l[..k], SplitBlock(blk, addr, size));
    TotalConcat(l[..k] + [blk], l[k + 1..]);
    TotalConcat(l[..k], [blk]);
    TotalSingle(blk);
    assert l[..k] + [blk] + l[k + 1..] == l;
  }

  /** Growing a block by d bytes takes them from the front of the free
      block at nf, which is dropped once it is used up. */
  function TakeFront(free: seq<Block>, nf: nat, d: nat): (r: seq<Block>)
    requires nf < |free| && d <= free[nf].bytes
    ensures Total(r) + d == Total(free)
    ensures forall x: nat :: Covers(r, x) ==> Covers(free, x)
    ensures forall x: nat :: Covers(free, x) && !(free[nf].addr <= x < free[nf].addr + d) ==> Covers(r, x)
  {
    var nb := Block(free[nf].addr + d, free[nf].bytes - d);
    TotalUpdate(free, nf, nb);
    var g := free[nf := nb];
    TakeFrontCovers(free, nf, d);
    if nb.bytes == 0 then
      RemoveEmptyCovers(g, nf);
      Remove(g, nf)
    else g
  }

  lemma TakeFrontCovers(free: seq<Block>, nf: nat, d: nat)
    requires nf < |free| && d <= free[nf].bytes
    ensures var g := free[nf := Block(free[nf].addr + d, free[nf].bytes - d)];
      forall x: nat :: (Covers(g, x) ==> Covers(free, x)) &&
        (Covers(free, x) && !(free[nf].addr <= x < free[nf].addr + d) ==> Covers(g, x))
  {
    var g := free[nf := Block(free[nf].addr + d, free[nf].bytes - d)];
    forall x: nat ensures (Covers(g, x) ==> Covers(free, x)) &&
      (Covers(free, x) && !(free[nf].addr <= x < free[nf].addr + d) ==> Covers(g, x))
    {
      if Covers(g, x) {
        var j :| 0 <= j < |g| && g[j].addr <= x < End(g[j]);
        assert free[j].addr <= x < End(free[j]);
      }
      if Covers(free, x) && !(free[nf].addr <= x < free[nf].addr + d) {
        var j :| 0 <= j < |free| && free[j].addr <= x < End(free[j]);
        assert g[j].addr <= x < End(g[j]);
      }
    }
  }

  /** Removing an empty block covers the same addresses. */
  lemma RemoveEmptyCovers(l: seq<Block>, k: nat)
    requires k < |l| && l[k].bytes == 0
    ensures forall x: nat :: Covers(Remove(l, k), x) <==> Covers(l, x)
  {
    var r := Remove(l, k);
    forall x: nat ensures Covers(r, x) <==> Covers(l, x) {
      if Covers(r, x) {
        var j :| 0 <= j < |r| && r[j].addr <= x < End(r[j]);
        if j < k { assert l[j] == r[j]; } else { assert l[j + 1] == r[j]; }
      }
      if Covers(l, x) {
        var j :| 0 <= j < |l| && l[j].addr <= x < End(l[j]);
        if j < k { assert r[j] == l[j]; } else { assert r[j - 1] == l[j]; }
      }
    }
  }

  /** ReAlloc's growth test: a free block follows addr, no allocated block
      starts between addr and it, and together the two blocks are at least
      len bytes. */
  predicate GrowFits(free: seq<Block>, alloc: seq<Block>, addr: nat, bytes: nat, len: nat)
  {
    var nf, na := UpperBound(free, addr, 0), UpperBound(alloc, addr, 0);
    nf < |free| && !(na < |alloc| && alloc[na].addr < free[nf].addr) &&
    bytes + free[nf].bytes >= len
  }

  /** Block addresses strictly increase along the list. */
  predicate Ordered(l: seq<Block>)
  {
    forall i, j :: 0 <= i < j < |l| ==> l[i].addr < l[j].addr
  }

  /** In an ordered list, the last block starting at or before addr is the
      block starting at addr, when there is one. */
  lemma OrderedCandidate(l: seq<Block>, addr: nat)
    requires Ordered(l) && IndexOf(l, addr, 0).Some?
    ensures 0 < UpperBound(l, addr, 0) && UpperBound(l, addr, 0) - 1 == IndexOf(l, addr, 0).value
  {
    var k, u := IndexOf(l, addr, 0).value, UpperBound(l, addr, 0);
    assert l[k].addr == addr;
    assert k < u;
    assert l[u - 1].addr <= addr;
    assert u - 1 <= k;
  }

  class HeapAllocator {
    const pageSize: nat
    var freeList: seq<Block>
    var allocList: seq<Block>

    ghost function Bytes(): nat
      reads this
    {
      Total(freeList) + Total(allocList)
    }

    constructor (pageSz: nat)
      requires pageSz > 0
      ensures pageSize == pageSz && freeList == [] && allocList == []
    {
      pageSize := pageSz;
      freeList, allocList := [], [];
    }

    /** A block of l that intersects mb, if any. */
    static method FindIntersecting(l: seq<Block>, mb: Block) returns (found: bool)
      ensures found <==> exists k :: 0 <= k < |l| && Intersects(l[k], mb)
    {
      var k := 0;
      while k < |l|
        invariant 0 <= k <= |l|
        invariant forall j :: 0 <= j < k ==> !Intersects(l[j], mb)
      {
        if Intersects(l[k], mb) {
          return true;
        }
        k := k + 1;
      }
      return false;
    }

    /** AddMemoryBlock: a block that intersects no free and no allocated block
        is appended to the free list. */
    method AddMemoryBlock(start: nat, length: nat) returns (ok: bool)
      modifies this
      ensures allocList == old(allocList)
      ensures ok <==> forall k :: 0 <= k < |old(freeList) + old(allocList)| ==>
        !Intersects((old(freeList) + old(allocList))[k], Block(start, length))
      ensures ok ==> freeList == old(freeList) + [Block(start, length)]
      ensures !ok ==> freeList == old(freeList)
    {
      var mb := Block(start, length);
      var inFree := FindIntersecting(freeList, mb);
      if inFree {
        var k :| 0 <= k < |freeList| && Intersects(freeList[k], mb);
        assert (freeList + allocList)[k] == freeList[k];
        return false;
      }
      var inAlloc := FindIntersecting(allocList, mb);
      if inAlloc {
        var k :| 0 <= k < |allocList| && Intersects(allocList[k], mb);
        assert (freeList + allocList)[|freeList| + k] == allocList[k];
        return false;
      }
      freeList := freeList + [mb];
      return true;
    }

    /** IsIntersected: some allocated block intersects [addr, addr+length). */
    method IsIntersected(addr: nat, length: nat) returns (r: bool)
      ensures r <==> exists k :: 0 <= k < |allocList| && Intersects(allocList[k], Block(addr, length))
    {
      r := FindIntersecting(allocList, Block(addr, length));
    }

    /** Alloc: only addr == 0 is served; the length is rounded up to whole
        pages and cut from the front of the first free block strictly larger
        than it; the new block goes to its sorted place in the allocated
        list. 0 reports failure. */
    method Alloc(addr: nat, length: nat) returns (r: nat)
      requires pageSize > 0
      modifies this
      ensures addr != 0 ==> r == 0 && freeList == old(freeList) && allocList == old(allocList)
      ensures addr == 0 ==>
        var len := InPages(length, pageSize) * pageSize;
        match FirstFit(old(freeList), len, 0)
        case None => r == 0 && freeList == old(freeList) && allocList == old(allocList)
        case Some(i) =>
          r == old(freeList)[i].addr &&
          freeList == old(freeList)[i := Block(r + len, old(freeList)[i].bytes - len)] &&
          allocList == Insert(old(allocList), LowerBound(old(allocList), r, 0), Block(r, len))
      ensures Bytes() == old(Bytes())
    {
      if addr != 0 {
        return 0;
      }
      var len := InPages(length, pageSize) * pageSize;
      var i := 0;
      while i < |freeList|
        invariant 0 <= i <= |freeList|
        invariant FirstFit(freeList, len, 0) == FirstFit(freeList, len, i)
      {
        var e := freeList[i];
        if e.bytes > len {
          var mb := Block(e.addr, len);
          allocList := Insert(allocList, LowerBound(allocList, mb.addr, 0), mb);
          TotalUpdate(freeList, i, Block(e.addr + len, e.bytes - len));
          // The block was strictly larger than len, so it never empties here.
          freeList := freeList[i := Block(e.addr + len, e.bytes - len)];
          return mb.addr;
        }
        i := i + 1;
      }
      return 0;
    }

    /** GetBlockSize: the size of the allocated block starting at addr, or 0. */
    method GetBlockSize(addr: nat) returns (n: nat)
      ensures n == match IndexOf(allocList, addr, 0) case Some(k) => allocList[k].bytes case None => 0
    {
      var found := FindBlock(allocList, addr);
      if found.Some? {
        return allocList[found.value].bytes;
      }
      return 0;
    }

    /** std::find by address over a block list. */
    static method FindBlock(l: seq<Block>, addr: nat) returns (r: Option<nat>)
      ensures r == IndexOf(l, addr, 0)
    {
      var k := 0;
      while k < |l|
        invariant 0 <= k <= |l|
        invariant IndexOf(l, addr, 0) == IndexOf(l, addr, k)
      {
        if l[k].addr == addr {
          return Some(k);
        }
        k := k + 1;
      }
      return None;
    }

    /** The merge loop of IntegrateFreeBlocks: each block absorbs the blocks
        that follow it directly in the list while they start where it ends. */
    static method MergeAdjacent(l0: seq<Block>) returns (l: seq<Block>)
      ensures Total(l) == Total(l0) && NoAdjacent(l)
      ensures forall x: nat :: Covers(l, x) <==> Covers(l0, x)
    {
      l := l0;
      var i := 0;
      while i < |l|
        invariant 0 <= i <= |l|
        invariant Total(l) == Total(l0)
        invariant forall x: nat :: Covers(l, x) <==> Covers(l0, x)
        invariant forall k :: 0 <= k < i && k + 1 < |l| ==> End(l[k]) != l[k + 1].addr
      {
        while i + 1 < |l| && End(l[i]) == l[i + 1].addr
          invariant i < |l|
          invariant Total(l) == Total(l0)
          invariant forall x: nat :: Covers(l, x) <==> Covers(l0, x)
          invariant forall k :: 0 <= k < i && k + 1 < |l| ==> End(l[k]) != l[k + 1].addr
          decreases |l|
        {
          var m := l[..i] + [Block(l[i].addr, l[i].bytes + l[i + 1].bytes)] + l[i + 2..];
          forall x: nat ensures Covers(m, x) <==> Covers(l, x) {
            MergeCovers(l, i, x);
          }
          MergeTotal(l, i);
          l := m;
        }
        i := i + 1;
      }
    }

    /** IntegrateFreeBlocks: merges address-adjacent neighbours of the free list. */
    method IntegrateFreeBlocks()
      modifies this
      ensures allocList == old(allocList)
      ensures Total(freeList) == Total(old(freeList)) && NoAdjacent(freeList)
      ensures forall x: nat :: Covers(freeList, x) <==> Covers(old(freeList), x)
    {
      freeList := MergeAdjacent(freeList);
    }

    /** ReAlloc: an unchanged size returns addr; an unknown address returns 0;
        shrinking gives the tail back to the free list; growing takes bytes
        from the front of the next free block, if no allocated block lies
        before it and it is big enough. The caller passes the block's own
        size as oldSize. The block never moves. */
    method ReAlloc(addr: nat, oldSize: nat, newSize: nat) returns (r: nat)
      requires pageSize > 0
      requires IndexOf(allocList, addr, 0).Some? ==> allocList[IndexOf(allocList, addr, 0).value].bytes == oldSize
      modifies this
      ensures oldSize == newSize ==> r == addr && freeList == old(freeList) && allocList == old(allocList)
      ensures oldSize != newSize && IndexOf(old(allocList), addr, 0).None? ==>
        r == 0 && freeList == old(freeList) && allocList == old(allocList)
      ensures oldSize != newSize && IndexOf(old(allocList), addr, 0).Some? ==>
        var k := IndexOf(old(allocList), addr, 0).value;
        var len := InPages(newSize, pageSize) * pageSize;
        if len < oldSize then
          r == addr && allocList == old(allocList)[k := Block(addr, len)] && NoAdjacent(freeList) &&
          forall x: nat :: Covers(freeList, x) <==> (Covers(old(freeList), x) || addr + len <= x < addr + oldSize)
        else if GrowFits(old(freeList), old(allocList), addr, oldSize, len) then
          r == addr && allocList == old(allocList)[k := Block(addr, len)] &&
          freeList == TakeFront(old(freeList), UpperBound(old(freeList), addr, 0), len - oldSize)
        else
          r == 0 && freeList == old(freeList) && allocList == old(allocList)
      ensures Bytes() == old(Bytes())
    {
      if oldSize == newSize {
        return addr;
      }
      var len := InPages(newSize, pageSize) * pageSize;
      var found := FindBlock(allocList, addr);
      if found.None? {
        return 0;
      }
      var k := found.value;
      var blk := allocList[k];
      if len < oldSize {
        var fb := Block(blk.addr + len, blk.bytes - len);
        var pos := LowerBound(freeList, fb.addr, 0);
        forall x: nat ensures Covers(Insert(freeList, pos, fb), x) <==> (Covers(freeList, x) || fb.addr <= x < End(fb)) {
          InsertCovers(freeList, pos, fb, x);
        }
        freeList := Insert(freeList, pos, fb);
        TotalUpdate(allocList, k, Block(blk.addr, len));
        allocList := allocList[k := Block(blk.addr, len)];
        IntegrateFreeBlocks();
      } else {
        var nf := UpperBound(freeList, addr, 0);
        var na := UpperBound(allocList, addr, 0);
        if nf == |freeList| {
          return 0;
        }
        if na < |allocList| && allocList[na].addr < freeList[nf].addr {
          return 0;
        }
        if blk.bytes + freeList[nf].bytes < len {
          return 0;
        }
        var d := len - blk.bytes;
        var nb := Block(freeList[nf].addr + d, freeList[nf].bytes - d);
        ghost var want := TakeFront(freeList, nf, d);
        TotalUpdate(allocList, k, Block(blk.addr, len));
        freeList := freeList[nf := nb];
        allocList := allocList[k := Block(blk.addr, len)];
        if nb.bytes == 0 {
          freeList := Remove(freeList, nf);
        }
        assert freeList == want;
      }
      return allocList[k].addr;
    }

    /** Free(addr, size), with the containment test the comments describe:
        the last allocated block starting at or before addr must contain
        [addr, addr+size); it is split around the range, the range joins the
        free list, and the free list is merged. */
    method FreeRange(addr: nat, size: nat) returns (ok: bool)
      modifies this
      ensures ok <==> (0 < UpperBound(old(allocList), addr, 0) &&
        var blk := old(allocList)[UpperBound(old(allocList), addr, 0) - 1];
        blk.addr <= addr && addr + size <= End(blk))
      ensures !ok ==> freeList == old(freeList) && allocList == old(allocList)
      ensures ok ==>
        var k := UpperBound(old(allocList), addr, 0) - 1;
        allocList == old(allocList)[..k] + SplitBlock(old(allocList)[k], addr, size) + old(allocList)[k + 1..]
      ensures ok ==> (NoAdjacent(freeList) &&
        forall x: nat :: Covers(freeList, x) <==> (Covers(old(freeList), x) || addr <= x < addr + size))
      ensures ok ==> (Total(allocList) + size == Total(old(allocList)) &&
        Total(freeList) == Total(old(freeList)) + size)
    {
      if |allocList| == 0 {
        return false;
      }
      var ub := UpperBound(allocList, addr, 0);
      if ub == 0 {
        return false;
      }
      var k := ub - 1;
      var blk := allocList[k];
      if !(blk.addr <= addr && addr + size <= End(blk)) {
        return false;
      }
      allocList := SplitInList(allocList, k, addr, size);
      var pos := LowerBound(freeList, addr, 0);
      forall x: nat ensures Covers(Insert(freeList, pos, Block(addr, size)), x) <==> (Covers(freeList, x) || addr <= x < addr + size) {
        InsertCovers(freeList, pos, Block(addr, size), x);
      }
      freeList := Insert(freeList, pos, Block(addr, size));
      IntegrateFreeBlocks();
      return true;
    }

    /** Free(addr): frees the whole allocated block starting at addr. In an
        ordered allocated list that block is the candidate Free(addr, size)
        examines, so the block is always freed. */
    method Free(addr: nat) returns (ok: bool)
      modifies this
      ensures IndexOf(old(allocList), addr, 0).None? ==> !ok && freeList == old(freeList) && allocList == old(allocList)
      ensures Ordered(old(allocList)) && IndexOf(old(allocList), addr, 0).Some? ==>
        var k := IndexOf(old(allocList), addr, 0).value;
        ok && allocList == old(allocList)[..k] + old(allocList)[k + 1..] && NoAdjacent(freeList) &&
        forall x: nat :: Covers(freeList, x) <==> (Covers(old(freeList), x) || addr <= x < End(old(allocList)[k]))
      ensures ok ==> Bytes() == old(Bytes())
    {
      var found := FindBlock(allocList, addr);
      if found.None? {
        return false;
      }
      var blk := allocList[found.value];
      if Ordered(allocList) {
        OrderedCandidate(allocList, addr);
        assert SplitBlock(blk, blk.addr, blk.bytes) == [];
      }
      ok := FreeRange(blk.addr, blk.bytes);
    }
  }

  lemma TotalPair(x: Block, y: Block)
    ensures Total([x, y]) == x.bytes + y.bytes
  {
    assert [x, y][..1] == [x];
    TotalSingle(x);
  }

  lemma TotalSingle(x: Block)
    ensures Total([x]) == x.bytes
  {
    assert [x][..0] == [];
  }

  /** Replacing two neighbours by one block of their joint size keeps the total. */
  lemma MergeTotalParts(pre: seq<Block>, x: Block, y: Block, m: Block, post: seq<Block>)
    requires m.bytes == x.bytes + y.bytes
    ensures Total(pre + [m] + post) == Total(pre + [x, y] + post)
  {
    TotalConcat(pre + [x, y], post);
    TotalConcat(pre, [x, y]);
    TotalPair(x, y);
    TotalConcat(pre + [m], post);
    TotalConcat(pre, [m]);
    TotalSingle(m);
  }

  lemma SplitAroundPair(l: seq<Block>, i: nat)
    requires i + 1 < |l|
    ensures l == l[..i] + [l[i], l[i + 1]] + l[i + 2..]
  {
  }

  lemma MergeTotal(l: seq<Block>, i: nat)
    requires i + 1 < |l|
    ensures Total(l[..i] + [Block(l[i].addr, l[i].bytes + l[i + 1].bytes)] + l[i + 2..]) == Total(l)
  {
    var pre, x, y, post := l[..i], l[i], l[i + 1], l[i + 2..];
    SplitAroundPair(l, i);
    assert Total(pre + [x, y] + post) == Total(l);
    var m := Block(x.addr, x.bytes + y.bytes);
    MergeTotalParts(pre, x, y, m, post);
    assert Total(pre + [m] + post) == Total(l);
  }
}
