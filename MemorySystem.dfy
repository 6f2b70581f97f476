/** The emulated process's memory system calls (brk, mmap, mremap, munmap)
    over the virtual memory and the heap allocator that hands out the mmap
    area. Results that the system call returns as (u64)-1 are MinusOne; an
    exception thrown by the layers below is a Fail. */
module MemSystem {
  import opened Wrappers
  import VM = VirtualMem
  import HA = HeapAlloc
  import Arith

  const PageSize: nat := VM.PageSize

  /** RESERVED_PAGE_ZERO_FILLED: the page number of the shared zero page. */
  const ReservedPageZeroFilled: nat := 1
  const ZeroPage: nat := ReservedPageZeroFilled * PageSize

  /** (u64)-1. */
  const MinusOne: nat := 0xFFFF_FFFF_FFFF_FFFF

  const AttrReadWrite: nat := VM.AttrRead + VM.AttrWrite

  /** (n + pageMask) & ~pageMask: n rounded up to whole pages. */
  function RoundUp(n: nat): (r: nat)
    ensures r % PageSize == 0 && n <= r < n + PageSize
  {
    var q := (n + PageSize - 1) / PageSize;
    assert q * PageSize + (n + PageSize - 1) % PageSize == n + PageSize - 1;
    q * PageSize
  }

  /** The page addresses above the page of lo, up to and including the page
      of hi. */
  ghost function PagesAbove(lo: nat, hi: nat): set<nat>
  {
    set q: nat | VM.Base(lo) < q <= VM.Base(hi) && q % PageSize == 0
  }

  /** Two distinct page addresses are a page apart. */
  lemma AlignedGap(a: nat, b: nat)
    requires a % PageSize == 0 && b % PageSize == 0 && a < b
    ensures a + PageSize <= b
  {
    var qa, qb := a / PageSize, b / PageSize;
    assert a == qa * PageSize && b == qb * PageSize;
    assert qa < qb;
    assert (qa + 1) * PageSize <= qb * PageSize;
  }

  /** Stepping one page down adds that page to the pages above. */
  lemma PagesAboveStep(p: nat, hi: nat)
    requires p % PageSize == 0 && p >= PageSize && p <= VM.Base(hi)
    ensures PagesAbove(p - PageSize, hi) == PagesAbove(p, hi) + {p}
  {
    assert VM.Base(p) == p && VM.Base(p - PageSize) == p - PageSize;
    forall q: nat | q in PagesAbove(p - PageSize, hi) && q != p ensures q in PagesAbove(p, hi) {
      if q < p {
        AlignedGap(q, p);
      }
    }
  }

  /** Stepping the upper end one page up adds that page. */
  lemma PagesAboveGrow(lo: nat, d: nat)
    requires d % PageSize == 0 && VM.Base(lo) <= d
    ensures PagesAbove(lo, d + PageSize) == PagesAbove(lo, d) + {d + PageSize}
  {
    Arith.AlignedStep(d, PageSize);
    assert VM.Base(d) == d && VM.Base(d + PageSize) == d + PageSize;
    forall q: nat | q in PagesAbove(lo, d + PageSize) && q != d + PageSize ensures q in PagesAbove(lo, d) {
      if d < q {
        AlignedGap(q, d + PageSize);
      }
    }
  }

  /** The allocated size of the block starting at addr, 0 if none (GetBlockSize). */
  function AllocatedSize(alloc: seq<HA.Block>, addr: nat): nat
  {
    match HA.IndexOf(alloc, addr, 0)
    case Some(k) => alloc[k].bytes
    case None => 0
  }

  /** The heap accepts freeing [addr, addr+size): the last allocated block
      starting at or before addr contains it. */
  ghost predicate FreeAccepted(alloc: seq<HA.Block>, addr: nat, size: nat)
  {
    0 < HA.UpperBound(alloc, addr, 0) &&
    var blk := alloc[HA.UpperBound(alloc, addr, 0) - 1];
    blk.addr <= addr && addr + size <= HA.End(blk)
  }

  /** The length munmap frees pages for: cut down to whole pages when the
      range does not end on a page boundary. */
  function UnmapLength(addr: nat, length: nat): (r: nat)
    ensures r <= length && (addr + r) % PageSize == (if (addr + length) % PageSize != 0 then addr % PageSize else 0)
  {
    if (addr + length) % PageSize != 0 then length - length % PageSize else length
  }

  class MemorySystem {
    const vm: VM.VirtualMemory
    const heap: HA.HeapAllocator
    var currentBrk: nat

    ghost predicate Valid()
      reads this, vm, vm.pt, heap
    {
      vm.Valid() && heap.pageSize == PageSize
    }

    /** The zero page is mapped read-only at construction (its zero fill is
        data, not modelled). */
    constructor ()
      ensures Valid() && currentBrk == 0 && heap.freeList == [] && heap.allocList == []
      ensures vm.pt.entries.Keys == {ZeroPage} && vm.pt.entries[ZeroPage].attr == VM.AttrRead
    {
      vm := new VM.VirtualMemory();
      heap := new HA.HeapAllocator(PageSize);
      currentBrk := 0;
      new;
      var ok := vm.AssignPhysicalMemory(ZeroPage, VM.AttrRead);
      assert VM.Base(ZeroPage) == ZeroPage;
    }

    method SetInitialBrk(initialBrk: nat)
      modifies this
      ensures currentBrk == initialBrk
    {
      currentBrk := initialBrk;
    }

    /** Brk: 0 asks for the current break; a lower address frees the pages
        above its page up to the break's page; a higher one assigns the pages
        after the break's page up to its own, zero-fills (copy-on-write of
        the pages written) and moves the break. */
    method Brk(addr: nat) returns (r: Result<nat>)
      requires Valid()
      modifies this, vm.pt
      ensures Valid()
      ensures addr == 0 ==> (r == Ok(old(currentBrk)) && currentBrk == old(currentBrk) &&
        vm.pt.entries == old(vm.pt.entries))
      ensures addr != 0 && addr < old(currentBrk) ==> (r == Ok(0) && currentBrk == addr &&
        vm.pt.entries == old(vm.pt.entries) - PagesAbove(addr, old(currentBrk)))
      ensures addr != 0 && addr >= old(currentBrk) ==>
        (old(vm.pt.entries).Keys <= vm.pt.entries.Keys &&
         (r.Ok? ==>
           (r.value == 0 && currentBrk == addr && PagesAbove(old(currentBrk), addr) <= vm.pt.entries.Keys)) &&
         (r.Fail? ==> currentBrk == old(currentBrk)))
    {
      if addr == 0 {
        return Ok(currentBrk);
      }
      if addr < currentBrk {
        FreeAbove(addr, currentBrk);
        currentBrk := addr;
        return Ok(0);
      }
      var ok := AssignAbove(currentBrk, addr);
      if !ok {
        return Fail("The break could not be expanded.");
      }
      currentBrk := addr;
      return Ok(0);
    }

    /** The shrinking half of Brk: the pages from the break's page down to
        the page of the new break, exclusive, are freed one by one. */
    method FreeAbove(addr: nat, brk: nat)
      requires Valid() && addr < brk
      modifies vm.pt
      ensures Valid() && vm.pt.entries == old(vm.pt.entries) - PagesAbove(addr, brk)
    {
      var endPage := VM.Base(addr);
      var pageAddr := VM.Base(brk);
      assert PagesAbove(pageAddr, brk) == {};
      while pageAddr != endPage
        invariant vm.Valid() && endPage <= pageAddr <= VM.Base(brk) && pageAddr % PageSize == 0
        invariant vm.pt.entries == old(vm.pt.entries) - PagesAbove(pageAddr, brk)
        decreases pageAddr
      {
        AlignedGap(endPage, pageAddr);
        vm.FreeRange(pageAddr, PageSize);
        VM.OnePage(pageAddr);
        PagesAboveStep(pageAddr, brk);
        Arith.AlignedStep(pageAddr, PageSize);
        pageAddr := pageAddr - PageSize;
      }
    }

    /** The growing half of Brk: the pages after the break's page up to the
        page of the new break are assigned, then [brk, addr) is zero-filled;
        an already mapped page or an unmapped page to fill is an error. */
    method AssignAbove(brk: nat, addr: nat) returns (ok: bool)
      requires Valid() && brk <= addr
      modifies vm.pt
      ensures Valid() && old(vm.pt.entries).Keys <= vm.pt.entries.Keys
      ensures ok ==> PagesAbove(brk, addr) <= vm.pt.entries.Keys
    {
      ok := AssignPages(brk, addr);
      if ok {
        ok := vm.CopyRangeOnWrite(brk, addr - brk);
      }
    }

    /** The page loop of AssignAbove. */
    method AssignPages(brk: nat, addr: nat) returns (ok: bool)
      requires Valid() && brk <= addr
      modifies vm.pt
      ensures Valid() && old(vm.pt.entries).Keys <= vm.pt.entries.Keys
      ensures ok ==> PagesAbove(brk, addr) <= vm.pt.entries.Keys
    {
      var endPage := VM.Base(addr);
      var done := VM.Base(brk);
      assert PagesAbove(brk, done) == {};
      ok := true;
      while done < endPage
        invariant vm.Valid() && done % PageSize == 0 && VM.Base(brk) <= done <= endPage
        invariant old(vm.pt.entries).Keys <= vm.pt.entries.Keys
        invariant PagesAbove(brk, done) <= vm.pt.entries.Keys
        decreases endPage - done
      {
        PagesAboveGrow(brk, done);
        AlignedGap(done, endPage);
        ok := vm.AssignPhysicalMemory(done + PageSize, AttrReadWrite);
        if !ok {
          return false;
        }
        Arith.AlignedStep(done, PageSize);
        done := done + PageSize;
      }
    }

    /** MMap: only addr == 0 and a non-zero length are served; the heap picks
        the area and, copy-on-write, every page of it shares the zero page,
        readable and writable. A heap failure gives MinusOne. */
    method MMap(addr: nat, length: nat) returns (r: Result<nat>)
      requires Valid()
      modifies vm.pt, heap
      ensures Valid()
      ensures addr != 0 || length == 0 ==> (r == Ok(MinusOne) &&
        vm.pt.entries == old(vm.pt.entries) && heap.allocList == old(heap.allocList))
      ensures r.Ok? && r.value != MinusOne ==>
        (r.value != 0 && ZeroPage in old(vm.pt.entries) &&
         old(vm.pt.entries).Keys !! VM.PagesOf(r.value, length) &&
         vm.pt.entries.Keys == old(vm.pt.entries).Keys + VM.PagesOf(r.value, length) &&
         forall q :: q in VM.PagesOf(r.value, length) ==>
           vm.pt.entries[q] == VM.Entry(old(vm.pt.entries)[ZeroPage].phys, AttrReadWrite))
    {
      if addr != 0 {
        return Ok(MinusOne);
      }
      if length == 0 {
        return Ok(MinusOne);
      }
      var result := heap.Alloc(addr, length);
      if result == 0 {
        return Ok(MinusOne);
      }
      var ok := vm.SetMappingRange(result, ZeroPage, length, AttrReadWrite);
      if !ok {
        return Fail("SetPhysicalMemoryMapping failed.");
      }
      assert VM.Base(ZeroPage) == ZeroPage;
      return Ok(result);
    }

    /** MUnmap: a zero length is refused; the heap must accept freeing the
        range; then the pages of the range are freed, except a last page the
        range ends inside. */
    method MUnmap(addr: nat, length: nat) returns (r: int)
      requires Valid()
      modifies vm.pt, heap
      ensures Valid()
      ensures r == 0 || r == -1
      ensures r == 0 <==> length > 0 && FreeAccepted(old(heap.allocList), addr, length)
      ensures r == -1 ==> vm.pt.entries == old(vm.pt.entries) && heap.allocList == old(heap.allocList)
      ensures r == 0 ==> vm.pt.entries == old(vm.pt.entries) - VM.PagesOf(addr, UnmapLength(addr, length))
    {
      if length == 0 {
        return -1;
      }
      var ok := heap.FreeRange(addr, length);
      if !ok {
        return -1;
      }
      vm.FreeRange(addr, UnmapLength(addr, length));
      return 0;
    }

    /** MRemap: a zero new size, or an old size that is not the size of the
        block allocated at oldAddr, gives MinusOne. In place, growing assigns
        the pages after the old size's last page and zero-fills the new part;
        shrinking frees the pages after the new size's last page. Otherwise,
        when moving is allowed, a new area is allocated and assigned, the old
        contents copied, and the old area unmapped. */
    method MRemap(oldAddr: nat, oldSize: nat, newSize: nat, mayMove: bool) returns (r: Result<nat>, ghost moved: bool)
      requires Valid()
      modifies vm.pt, heap
      ensures Valid()
      ensures newSize == 0 || AllocatedSize(old(heap.allocList), oldAddr) != oldSize ==>
        (r == Ok(MinusOne) && vm.pt.entries == old(vm.pt.entries) &&
         heap.allocList == old(heap.allocList) && heap.freeList == old(heap.freeList))
      ensures moved ==> mayMove
      ensures !moved && r.Ok? && r.value != MinusOne ==>
        (r.value == oldAddr &&
         (newSize > oldSize ==>
           forall x :: oldAddr + RoundUp(oldSize) <= x < oldAddr + newSize ==> VM.Base(x) in vm.pt.entries) &&
         (newSize < oldSize ==>
           forall x :: oldAddr + RoundUp(newSize) <= x < oldAddr + oldSize ==> VM.Base(x) !in vm.pt.entries))
    {
      moved := false;
      if newSize == 0 {
        return Ok(MinusOne), false;
      }
      var blockSize := heap.GetBlockSize(oldAddr);
      if blockSize != oldSize {
        return Ok(MinusOne), false;
      }
      var result := heap.ReAlloc(oldAddr, oldSize, newSize);
      if result != 0 {
        if newSize > oldSize {
          var ok := GrowInPlace(result, oldSize, newSize);
          if !ok {
            return Fail("MRemap: page assignment failed."), false;
          }
        } else if newSize < oldSize {
          ShrinkInPlace(result, oldSize, newSize);
        }
        return Ok(result), false;
      }
      if !mayMove {
        return Ok(MinusOne), false;
      }
      if !(oldSize < newSize) {
        return Fail("HeapAlloc::ReAlloc Logic Error"), true;
      }
      result := heap.Alloc(0, newSize);
      if result == 0 {
        return Ok(MinusOne), true;
      }
      var ok := vm.AssignRange(result, newSize, AttrReadWrite);
      if !ok {
        return Fail("The specified address is already mapped."), true;
      }
      ok := vm.CopyRangeOnWrite(result, oldSize);
      if ok {
        ok := vm.CopyRangeOnWrite(result + oldSize, newSize - oldSize);
      }
      if !ok {
        return Fail("The specified address is not mapped."), true;
      }
      var _ := MUnmap(oldAddr, oldSize);
      return Ok(result), true;
    }

    /** The page work of an in-place grow of the area at a. */
    method GrowInPlace(a: nat, oldSize: nat, newSize: nat) returns (ok: bool)
      requires Valid() && oldSize < newSize
      modifies vm.pt
      ensures Valid()
      ensures ok ==> forall x :: a + RoundUp(oldSize) <= x < a + newSize ==> VM.Base(x) in vm.pt.entries
    {
      if (a + oldSize) % PageSize != 0 {
        var length: int := newSize - RoundUp(oldSize);
        if length > 0 {
          var start := a + RoundUp(oldSize);
          ok := vm.AssignRange(start, length, AttrReadWrite);
          if !ok {
            return false;
          }
          assert forall x :: start <= x < start + length ==> VM.Base(x) in VM.PagesOf(start, length);
        }
      } else {
        ok := vm.AssignRange(a + oldSize, newSize - oldSize, AttrReadWrite);
        if !ok {
          return false;
        }
        assert forall x :: a + oldSize <= x < a + newSize ==> VM.Base(x) in VM.PagesOf(a + oldSize, newSize - oldSize);
      }
      ok := vm.CopyRangeOnWrite(a + oldSize, newSize - oldSize);
    }

    /** The page work of an in-place shrink of the area at a. */
    method ShrinkInPlace(a: nat, oldSize: nat, newSize: nat)
      requires Valid() && newSize < oldSize
      modifies vm.pt
      ensures Valid()
      ensures forall x :: a + RoundUp(newSize) <= x < a + oldSize ==> VM.Base(x) !in vm.pt.entries
    {
      if (a + newSize) % PageSize != 0 {
        var length: int := oldSize - RoundUp(newSize);
        if length > 0 {
          var start := a + RoundUp(newSize);
          vm.FreeRange(start, length);
          assert forall x :: start <= x < start + length ==> VM.Base(x) in VM.PagesOf(start, length);
        }
      } else {
        vm.FreeRange(a + newSize, oldSize - newSize);
        assert forall x :: a + newSize <= x < a + oldSize ==> VM.Base(x) in VM.PagesOf(a + newSize, oldSize - newSize);
      }
    }
  }
}
