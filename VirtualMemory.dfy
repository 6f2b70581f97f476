/** The emulator's virtual memory: a page table from target page addresses
    to shared physical pages with reference counts, a one-entry TLB in front
    of it, and copy-on-write. Page contents are not part of this model. */
module VirtualMem {
  import opened Wrappers

  /** VIRTUAL_MEMORY_PAGE_SIZE_BITS is 12. */
  const PageSize: nat := 4096

  const AttrRead: nat := 1
  const AttrWrite: nat := 2
  const AttrExec: nat := 4

  /** attr & bit, for a one-bit mask. */
  predicate HasAttr(attr: nat, bit: nat)
    requires bit > 0
  {
    (attr / bit) % 2 == 1
  }

  /** addr & offsetMask: the address of the page holding addr. */
  function Base(addr: nat): (b: nat)
    ensures b % PageSize == 0 && b <= addr < b + PageSize
  {
    addr - addr % PageSize
  }

  /** A page table entry: the shared physical page and the page attribute. */
  datatype Entry = Entry(phys: nat, attr: nat)

  /** The target pages whose entry refers to physical page p. */
  ghost function Sharers(m: map<nat, Entry>, p: nat): set<nat>
  {
    set a | a in m && m[a].phys == p
  }

  lemma SubsetCard(a: set<nat>, b: set<nat>)
    requires a <= b
    ensures |a| <= |b|
  {
    assert b == a + (b - a);
    assert a * (b - a) == {};
  }

  /** Every mapped page is page-aligned and its physical page is live; every
      live physical page was handed out, is referenced, and its count is at
      least the number of pages sharing it. */
  ghost predicate MapsValid(entries: map<nat, Entry>, refs: map<nat, nat>, nextPhys: nat)
  {
    (forall a :: a in entries ==> a % PageSize == 0 && entries[a].phys in refs) &&
    (forall p :: p in refs ==> p < nextPhys && refs[p] >= 1 && refs[p] >= |Sharers(entries, p)|)
  }

  /** Mapping page b to the live physical page p and counting one more
      reference to p keeps the maps valid. */
  lemma SharedCounts(entries: map<nat, Entry>, refs: map<nat, nat>, nextPhys: nat, b: nat, p: nat, attr: nat)
    requires MapsValid(entries, refs, nextPhys) && p in refs && b % PageSize == 0
    ensures MapsValid(entries[b := Entry(p, attr)], refs[p := refs[p] + 1], nextPhys)
  {
    var m := entries[b := Entry(p, attr)];
    forall q | q in refs && q != p ensures refs[q] >= |Sharers(m, q)| {
      SubsetCard(Sharers(m, q), Sharers(entries, q));
    }
    SubsetCard(Sharers(m, p), Sharers(entries, p) + {b});
  }

  /** Unmapping page b and counting one reference less to its physical page
      p (dropping p at zero) keeps the maps valid; at zero no page shares p. */
  lemma RemovedCounts(entries: map<nat, Entry>, refs: map<nat, nat>, nextPhys: nat, b: nat)
    requires MapsValid(entries, refs, nextPhys) && b in entries
    ensures var p := entries[b].phys; var r := refs[p] - 1;
      MapsValid(entries - {b}, if r == 0 then refs - {p} else refs[p := r], nextPhys) &&
      (r == 0 ==> forall a :: a in entries - {b} ==> (entries - {b})[a].phys != p)
  {
    var p := entries[b].phys;
    var m := entries - {b};
    assert forall q :: Sharers(m, q) == Sharers(entries, q) - {b};
    assert b in Sharers(entries, p);
    if refs[p] - 1 == 0 {
      forall a | a in m ensures m[a].phys != p {
        if m[a].phys == p {
          SubsetCard({a}, Sharers(m, p));
        }
      }
    }
  }

  /** Mapping page b to the fresh physical page p with count 1 keeps the
      maps valid. */
  lemma FreshCounts(entries: map<nat, Entry>, refs: map<nat, nat>, p: nat, b: nat, attr: nat)
    requires MapsValid(entries, refs, p) && b % PageSize == 0
    ensures MapsValid(entries[b := Entry(p, attr)], refs[p := 1], p + 1)
  {
    var m := entries[b := Entry(p, attr)];
    forall q | q in refs ensures refs[q] >= |Sharers(m, q)| {
      SubsetCard(Sharers(m, q), Sharers(entries, q));
    }
    assert Sharers(m, p) == {b};
  }

  /** Replacing a mapped page's entry by one for the same physical page
      keeps the maps valid. */
  lemma RetaggedCounts(entries: map<nat, Entry>, refs: map<nat, nat>, nextPhys: nat, b: nat, e: Entry)
    requires MapsValid(entries, refs, nextPhys) && b in entries && e.phys == entries[b].phys
    ensures MapsValid(entries[b := e], refs, nextPhys)
  {
    assert forall q :: Sharers(entries[b := e], q) == Sharers(entries, q);
  }

  /** An address range [addr, addr+size). */
  datatype Block = Block(addr: nat, size: nat)

  function End(b: Block): nat
  {
    b.addr + b.size
  }

  /** Each block starts where the previous one ends. */
  ghost predicate Contiguous(bs: seq<Block>)
  {
    forall k :: 0 <= k && k + 1 < |bs| ==> End(bs[k]) == bs[k + 1].addr
  }

  /** Contiguous blocks cover everything from the first start to the last end. */
  lemma {:induction false} ContiguousCovers(bs: seq<Block>, x: nat)
    requires |bs| > 0 && Contiguous(bs) && bs[0].addr <= x < End(bs[|bs| - 1])
    ensures exists k :: 0 <= k < |bs| && bs[k].addr <= x < End(bs[k])
  {
    if x >= End(bs[0]) {
      var rest := bs[1..];
      assert |bs| > 1;
      assert Contiguous(rest) by {
        forall k | 0 <= k && k + 1 < |rest| ensures End(rest[k]) == rest[k + 1].addr {
          assert rest[k] == bs[k + 1] && rest[k + 1] == bs[k + 2];
        }
      }
      ContiguousCovers(rest, x);
      var k :| 0 <= k < |rest| && rest[k].addr <= x < End(rest[k]);
      assert bs[k + 1] == rest[k];
    }
  }

  /** A block within one page. */
  predicate InOnePage(b: Block)
  {
    b.addr % PageSize + b.size <= PageSize
  }

  lemma InOnePageBase(b: Block, x: nat)
    requires InOnePage(b) && b.addr <= x < End(b)
    ensures Base(x) == Base(b.addr)
  {
    var q := b.addr / PageSize;
    assert b.addr == q * PageSize + b.addr % PageSize;
    assert q * PageSize <= x < q * PageSize + PageSize;
    assert x == q * PageSize + (x - q * PageSize);
    assert x % PageSize == x - q * PageSize by {
      var r := x - q * PageSize;
      assert x == PageSize * q + r && 0 <= r < PageSize;
    }
  }

  /** A split of [addr, addr+size): contiguous blocks from addr to the end,
      none crossing a page; an empty range is one empty block, otherwise no
      block is empty. */
  ghost predicate IsSplit(bs: seq<Block>, addr: nat, size: nat)
  {
    |bs| >= 1 && bs[0].addr == addr && End(bs[|bs| - 1]) == addr + size && Contiguous(bs) &&
    (forall k :: 0 <= k < |bs| ==> InOnePage(bs[k])) &&
    (size == 0 ==> |bs| == 1) &&
    (size > 0 ==> forall k :: 0 <= k < |bs| ==> bs[k].size > 0)
  }

  /** SplitAtMapUnitBoundary: [addr, addr+size) cut at page boundaries; the
      first block runs to the end of its page (or of the range), the others
      start on a page boundary. */
  method SplitAtMapUnitBoundary(addr: nat, size: nat) returns (bs: seq<Block>)
    ensures IsSplit(bs, addr, size)
    ensures forall k :: 0 < k < |bs| ==> bs[k].addr % PageSize == 0
  {
    var unit := PageSize;
    var endAddr := addr + size;
    var firstSize := if unit - addr % unit < endAddr - addr then unit - addr % unit else endAddr - addr;
    bs := [Block(addr, firstSize)];
    var a := addr + firstSize;
    while a < endAddr
      invariant |bs| >= 1 && bs[0].addr == addr && Contiguous(bs)
      invariant End(bs[|bs| - 1]) == (if a < endAddr then a else endAddr)
      invariant a < endAddr ==> a % unit == 0
      invariant forall k :: 0 <= k < |bs| ==> InOnePage(bs[k])
      invariant size == 0 ==> |bs| == 1
      invariant size > 0 ==> forall k :: 0 <= k < |bs| ==> bs[k].size > 0
      invariant forall k :: 0 < k < |bs| ==> bs[k].addr % PageSize == 0
      decreases endAddr - a
    {
      var n := if unit < endAddr - a then unit else endAddr - a;
      bs := bs + [Block(a, n)];
      a := a + unit;
    }
  }

  /** Every address of the range lies in the page of one of the split blocks. */
  lemma SplitCovers(bs: seq<Block>, addr: nat, size: nat, x: nat)
    requires IsSplit(bs, addr, size)
    requires addr <= x < addr + size
    ensures exists k :: 0 <= k < |bs| && Base(x) == Base(bs[k].addr)
  {
    ContiguousCovers(bs, x);
    var k :| 0 <= k < |bs| && bs[k].addr <= x < End(bs[k]);
    InOnePageBase(bs[k], x);
  }

  lemma {:induction false} StartsAfterFirst(bs: seq<Block>, k: nat)
    requires Contiguous(bs) && k < |bs|
    ensures bs[0].addr <= bs[k].addr
  {
    if k > 0 {
      StartsAfterFirst(bs, k - 1);
    }
  }

  lemma {:induction false} EndsBeforeLast(bs: seq<Block>, k: nat)
    requires Contiguous(bs) && k < |bs|
    ensures End(bs[k]) <= End(bs[|bs| - 1])
    decreases |bs| - k
  {
    if k + 1 < |bs| {
      EndsBeforeLast(bs, k + 1);
    }
  }

  /** The pages a range operation visits: those of the range's addresses, or
      the page of addr alone for an empty range. */
  ghost function PagesOf(addr: nat, size: nat): set<nat>
  {
    if size == 0 then {Base(addr)} else set x: nat | addr <= x < addr + size :: Base(x)
  }

  /** A whole aligned page is one page. */
  lemma OnePage(q: nat)
    requires q % PageSize == 0
    ensures PagesOf(q, PageSize) == {q}
  {
    forall x: nat | q <= x < q + PageSize ensures Base(x) == q {
      InOnePageBase(Block(q, PageSize), x);
    }
    assert Base(q) == q;
  }

  /** The pages of a list of blocks. */
  ghost function BlockPages(bs: seq<Block>): set<nat>
  {
    set k | 0 <= k < |bs| :: Base(bs[k].addr)
  }

  lemma BlockPagesSnoc(bs: seq<Block>, i: nat)
    requires i < |bs|
    ensures BlockPages(bs[..i + 1]) == BlockPages(bs[..i]) + {Base(bs[i].addr)}
  {
    var l, l1 := bs[..i], bs[..i + 1];
    assert forall k :: 0 <= k < i ==> l1[k] == l[k];
    assert l1[i] == bs[i];
  }

  /** A split visits exactly the pages of its range. */
  lemma SplitPages(bs: seq<Block>, addr: nat, size: nat)
    requires IsSplit(bs, addr, size)
    ensures BlockPages(bs) == PagesOf(addr, size)
  {
    if size > 0 {
      forall q | q in PagesOf(addr, size) ensures q in BlockPages(bs) {
        var x: nat :| addr <= x < addr + size && q == Base(x);
        SplitCovers(bs, addr, size, x);
      }
      forall k | 0 <= k < |bs| ensures Base(bs[k].addr) in PagesOf(addr, size) {
        StartsAfterFirst(bs, k);
        EndsBeforeLast(bs, k);
        var x: nat := bs[k].addr;
        assert addr <= x < addr + size;
      }
    } else {
      assert bs[0].addr == addr;
      assert BlockPages(bs) == {Base(bs[0].addr)};
    }
  }

  /** m1 keeps every entry of m0. */
  ghost predicate Extends(m0: map<nat, Entry>, m1: map<nat, Entry>)
  {
    forall a :: a in m0 ==> a in m1 && m1[a] == m0[a]
  }

  /** Copy-on-write of page b, whether it copied or not, leaves every page
      of s whose physical page had a count of 1 with a count of 1, and page b
      with one too. */
  lemma PrivateKept(e0: map<nat, Entry>, r0: map<nat, nat>, n0: nat, e1: map<nat, Entry>, r1: map<nat, nat>,
                    b: nat, s: set<nat>, copied: bool)
    requires MapsValid(e0, r0, n0) && b in e0 && s <= e0.Keys
    requires forall q :: q in s ==> r0[e0[q].phys] == 1
    requires copied ==> var p := e0[b].phys;
      r0[p] > 1 && e1 == e0[b := Entry(n0, e0[b].attr)] && r1 == r0[p := r0[p] - 1][n0 := 1]
    requires !copied ==> e1 == e0 && r1 == r0 && r0[e0[b].phys] <= 1
    ensures forall q :: q in s + {b} ==> q in e1 && e1[q].phys in r1 && r1[e1[q].phys] == 1
  {
    forall q | q in s + {b} ensures q in e1 && e1[q].phys in r1 && r1[e1[q].phys] == 1 {
      if copied && q != b {
        assert e0[q].phys < n0;
      }
    }
  }

  /** The outcome of a memory access (MemAccess::result). */
  datatype AccessResult =
    | Success
    | ReadInvalidAddress | ReadUnalignedAddress | ReadNotReadable
    | WriteInvalidAddress | WriteUnalignedAddress | WriteNotWritable
    | InvalidSize

  const U64Mod: int := 0x1_0000_0000_0000_0000

  /** (addr ^ (addr+size-1)) >> 12 != 0, in 64-bit arithmetic: the first and
      last byte lie in different pages. */
  predicate CrossesPage(addr: nat, size: nat)
  {
    addr / PageSize != ((addr + size - 1) % U64Mod) / PageSize
  }

  /** The page table with its one-entry TLB. Physical pages are numbered;
      `nextPhys` stands for the page pool. */
  class PageTable {
    var entries: map<nat, Entry>
    var refs: map<nat, nat>
    var nextPhys: nat
    var tlbValid: bool
    var tlbAddr: nat
    var tlbEntry: Entry

    /** Keys are page addresses; every entry's physical page is live; no live
        page's count is below the number of entries sharing it (so a page is
        never freed while referenced); a valid TLB entry agrees with the map. */
    ghost predicate Valid()
      reads this
    {
      MapsValid(entries, refs, nextPhys) &&
      (tlbValid ==> tlbAddr in entries && entries[tlbAddr] == tlbEntry)
    }

    /** The entry for the page of addr, if mapped. */
    ghost function MapAt(addr: nat): Option<Entry>
      reads this
    {
      if Base(addr) in entries then Some(entries[Base(addr)]) else None
    }

    constructor ()
      ensures Valid() && entries == map[] && refs == map[] && !tlbValid
    {
      entries, refs, nextPhys := map[], map[], 0;
      tlbValid, tlbAddr, tlbEntry := false, 0, Entry(0, 0);
    }

    /** TLB::Lookup: a hit needs a valid TLB and the same page. */
    predicate TlbHit(addr: nat)
      reads this
    {
      tlbValid && tlbAddr == Base(addr)
    }

    /** IsMapped: the TLB or the map knows the page; the TLB never answers
        differently from the map. */
    function IsMapped(addr: nat): (r: bool)
      reads this
      requires Valid()
      ensures r <==> Base(addr) in entries
    {
      TlbHit(addr) || Base(addr) in entries
    }

    /** GetMap: the TLB on a hit, else the map, refilling the TLB. */
    method GetMap(addr: nat) returns (r: Option<Entry>)
      requires Valid()
      modifies this
      ensures Valid() && r == old(MapAt(addr))
      ensures entries == old(entries) && refs == old(refs) && nextPhys == old(nextPhys)
    {
      if TlbHit(addr) {
        return Some(tlbEntry);
      }
      var b := Base(addr);
      if b !in entries {
        return None;
      }
      tlbAddr, tlbEntry, tlbValid := b, entries[b], true;
      return Some(entries[b]);
    }

    /** TargetToHost: the physical page and offset of addr; an unmapped page
        is an error. */
    method TargetToHost(addr: nat) returns (r: Result<(nat, nat)>)
      requires Valid()
      modifies this
      ensures Valid() && entries == old(entries) && refs == old(refs) && nextPhys == old(nextPhys)
      ensures r.Ok? <==> Base(addr) in entries
      ensures r.Ok? ==> r.value == (entries[Base(addr)].phys, addr % PageSize)
    {
      var e := GetMap(addr);
      if e.None? {
        return Fail("unassigned page referred.");
      }
      return Ok((e.value.phys, addr % PageSize));
    }

    /** AddMap: a fresh physical page with count 1 is mapped at the page of
        addr (replacing any entry there) and the TLB is flushed. */
    method AddMap(addr: nat, attr: nat) returns (p: nat)
      requires Valid()
      modifies this
      ensures Valid() && !tlbValid && p == old(nextPhys) && p !in old(refs)
      ensures entries == old(entries)[Base(addr) := Entry(p, attr)]
      ensures refs == old(refs)[p := 1]
    {
      p := nextPhys;
      nextPhys := nextPhys + 1;
      var m := entries[Base(addr) := Entry(p, attr)];
      FreshCounts(entries, refs, p, Base(addr), attr);
      entries := m;
      refs := refs[p := 1];
      tlbValid := false;
    }

    /** CopyMap: the page of dst shares the physical page of src, whose count
        grows by one; an unmapped src is an error. */
    method CopyMap(dst: nat, src: nat, attr: nat) returns (ok: bool)
      requires Valid()
      modifies this
      ensures Valid()
      ensures ok <==> Base(src) in old(entries)
      ensures !ok ==> entries == old(entries) && refs == old(refs) && tlbValid == old(tlbValid)
      ensures ok ==> var p := old(entries)[Base(src)].phys;
        !tlbValid && entries == old(entries)[Base(dst) := Entry(p, attr)] &&
        refs == old(refs)[p := old(refs)[p] + 1]
    {
      if !IsMapped(src) {
        return false;
      }
      var p := entries[Base(src)].phys;
      var m := entries[Base(dst) := Entry(p, attr)];
      SharedCounts(entries, refs, nextPhys, Base(dst), p, attr);
      entries := m;
      refs := refs[p := refs[p] + 1];
      tlbValid := false;
      return true;
    }

    /** SetMap, as SetPageAttribute uses it: a mapped page gets the entry
        (same physical page), written through to the TLB; an unmapped page
        is refused. */
    method SetMap(addr: nat, e: Entry) returns (ok: bool)
      requires Valid()
      requires Base(addr) in entries ==> e.phys == entries[Base(addr)].phys
      modifies this
      ensures Valid() && refs == old(refs)
      ensures ok <==> Base(addr) in old(entries)
      ensures ok ==> entries == old(entries)[Base(addr) := e] && TlbHit(addr) && tlbEntry == e
      ensures !ok ==> entries == old(entries)
    {
      var b := Base(addr);
      if b !in entries {
        return false;
      }
      var m := entries[b := e];
      RetaggedCounts(entries, refs, nextPhys, b, e);
      tlbAddr, tlbEntry, tlbValid := b, e, true;
      entries := m;
      return true;
    }

    /** GetPageReferenceCount: the count of the page's physical page, 0 if
        unmapped. */
    method GetPageReferenceCount(addr: nat) returns (n: nat)
      requires Valid()
      modifies this
      ensures Valid() && entries == old(entries) && refs == old(refs)
      ensures n == if Base(addr) in entries then refs[entries[Base(addr)].phys] else 0
    {
      var e := GetMap(addr);
      if e.Some? {
        return refs[e.value.phys];
      }
      return 0;
    }

    /** RemoveMap: the entry goes, its physical page's count drops by one and
        the page is freed at 0; the TLB is flushed and the new count returned,
        or -1 for an unmapped page. */
    method RemoveMap(addr: nat) returns (r: int)
      requires Valid()
      modifies this
      ensures Valid() && nextPhys == old(nextPhys)
      ensures Base(addr) !in old(entries) ==>
        (r == -1 && entries == old(entries) && refs == old(refs) && tlbValid == old(tlbValid))
      ensures Base(addr) in old(entries) ==> var p := old(entries)[Base(addr)].phys;
        r == old(refs)[p] - 1 && !tlbValid &&
        entries == old(entries) - {Base(addr)} &&
        refs == if r == 0 then old(refs) - {p} else old(refs)[p := r]
      ensures Base(addr) in old(entries) && r == 0 ==>
        forall a :: a in entries ==> entries[a].phys != old(entries)[Base(addr)].phys
    {
      var b := Base(addr);
      if b !in entries {
        return -1;
      }
      var p := entries[b].phys;
      var m := entries - {b};
      RemovedCounts(entries, refs, nextPhys, b);
      r := refs[p] - 1;
      if r == 0 {
        refs := refs - {p};
      } else {
        refs := refs[p := r];
      }
      entries := m;
      tlbValid := false;
    }
  }

  /** VirtualMemory: page-granular mapping operations over the page table. */
  class VirtualMemory {
    const pt: PageTable

    ghost predicate Valid()
      reads this, pt
    {
      pt.Valid()
    }

    constructor ()
      ensures Valid() && fresh(pt) && pt.entries == map[]
    {
      pt := new PageTable();
    }

    /** ReadMemory: an unmapped page, a page-crossing access or a page without
        the read attribute is reported, in that order; otherwise only the
        sizes 1, 2, 4 and 8 are served. The value read is not modelled. */
    method ReadMemory(addr: nat, size: nat) returns (r: AccessResult)
      requires Valid()
      modifies pt
      ensures Valid() && pt.entries == old(pt.entries) && pt.refs == old(pt.refs)
      ensures r == if Base(addr) !in pt.entries then ReadInvalidAddress
        else if CrossesPage(addr, size) then ReadUnalignedAddress
        else if !HasAttr(pt.entries[Base(addr)].attr, AttrRead) then ReadNotReadable
        else if size !in {1, 2, 4, 8} then InvalidSize
        else Success
    {
      var page := pt.GetMap(addr);
      if page.None? {
        return ReadInvalidAddress;
      }
      if CrossesPage(addr, size) {
        return ReadUnalignedAddress;
      }
      if !HasAttr(page.value.attr, AttrRead) {
        return ReadNotReadable;
      }
      if size !in {1, 2, 4, 8} {
        return InvalidSize;
      }
      return Success;
    }

    /** WriteMemory: the same checks with the write attribute, then
        copy-on-write of a shared page before the store. The stored value is
        not modelled. */
    method WriteMemory(addr: nat, size: nat) returns (r: AccessResult)
      requires Valid()
      modifies pt
      ensures Valid()
      ensures r == if Base(addr) !in old(pt.entries) then WriteInvalidAddress
        else if CrossesPage(addr, size) then WriteUnalignedAddress
        else if !HasAttr(old(pt.entries)[Base(addr)].attr, AttrWrite) then WriteNotWritable
        else if size !in {1, 2, 4, 8} then InvalidSize
        else Success
      ensures r == Success || r == InvalidSize ==>
        (Base(addr) in pt.entries && pt.refs[pt.entries[Base(addr)].phys] == 1)
      ensures r == Success || r == InvalidSize ==>
        var e := old(pt.entries)[Base(addr)];
        if old(pt.refs)[e.phys] > 1 then
          pt.entries == old(pt.entries)[Base(addr) := Entry(old(pt.nextPhys), e.attr)] &&
          pt.refs == old(pt.refs)[e.phys := old(pt.refs)[e.phys] - 1][old(pt.nextPhys) := 1]
        else
          pt.entries == old(pt.entries) && pt.refs == old(pt.refs)
      ensures r != Success && r != InvalidSize ==> pt.entries == old(pt.entries) && pt.refs == old(pt.refs)
    {
      var page := pt.GetMap(addr);
      if page.None? {
        return WriteInvalidAddress;
      }
      if CrossesPage(addr, size) {
        return WriteUnalignedAddress;
      }
      if !HasAttr(page.value.attr, AttrWrite) {
        return WriteNotWritable;
      }
      var copied := CopyPageOnWrite(addr);
      if size !in {1, 2, 4, 8} {
        return InvalidSize;
      }
      return Success;
    }

    /** AssignPhysicalMemory(addr): a fresh physical page for an unmapped
        page; a mapped page is an error. */
    method AssignPhysicalMemory(addr: nat, attr: nat) returns (ok: bool)
      requires Valid()
      modifies pt
      ensures Valid()
      ensures ok <==> Base(addr) !in old(pt.entries)
      ensures !ok ==> pt.entries == old(pt.entries) && pt.refs == old(pt.refs)
      ensures ok ==>
        (pt.entries == old(pt.entries)[Base(addr) := Entry(old(pt.nextPhys), attr)] &&
         pt.refs == old(pt.refs)[old(pt.nextPhys) := 1])
    {
      if pt.IsMapped(addr) {
        return false;
      }
      var p := pt.AddMap(addr, attr);
      return true;
    }

    /** FreePhysicalMemory(addr): unmaps a mapped page (its physical page is
        freed when this was the last reference); an unmapped page is left. */
    method FreePhysicalMemory(addr: nat)
      requires Valid()
      modifies pt
      ensures Valid() && pt.entries == old(pt.entries) - {Base(addr)}
    {
      if !pt.IsMapped(addr) {
        return;
      }
      var r := pt.RemoveMap(addr);
    }

    /** CopyPageOnWrite: a page whose physical page is shared (count > 1) gets
        a fresh copy with the same attribute; an unmapped page is an error. */
    method CopyPageOnWrite(addr: nat) returns (r: Result<bool>)
      requires Valid()
      modifies pt
      ensures Valid()
      ensures r.Ok? <==> Base(addr) in old(pt.entries)
      ensures r.Ok? ==> (r.value <==> old(pt.refs[pt.entries[Base(addr)].phys]) > 1)
      ensures (r.Ok? && !r.value) || r.Fail? ==> pt.entries == old(pt.entries) && pt.refs == old(pt.refs)
      ensures r.Ok? && r.value ==> var p := old(pt.entries[Base(addr)].phys);
        pt.entries == old(pt.entries)[Base(addr) := Entry(old(pt.nextPhys), old(pt.entries[Base(addr)].attr))] &&
        pt.refs == old(pt.refs)[p := old(pt.refs[p]) - 1][old(pt.nextPhys) := 1]
    {
      var page := pt.GetMap(addr);
      if page.None? {
        return Fail("The specified address is not mapped.");
      }
      var p := page.value.phys;
      if pt.refs[p] > 1 {
        var n := pt.RemoveMap(addr);
        var ok := AssignPhysicalMemory(addr, page.value.attr);
        return Ok(true);
      }
      return Ok(false);
    }

    /** AssignPhysicalMemory(addr, size): every page of the range, split at
        page boundaries, in turn; the first already mapped page stops it with
        an error. On success the pages of the range, none mapped before, are
        added and nothing else changes. */
    method AssignRange(addr: nat, size: nat, attr: nat) returns (ok: bool)
      requires Valid()
      modifies pt
      ensures Valid() && Extends(old(pt.entries), pt.entries)
      ensures ok ==> (old(pt.entries).Keys !! PagesOf(addr, size) &&
        pt.entries.Keys == old(pt.entries).Keys + PagesOf(addr, size))
    {
      var bs := SplitAtMapUnitBoundary(addr, size);
      var i := 0;
      while i < |bs|
        invariant 0 <= i <= |bs| && Valid() && Extends(old(pt.entries), pt.entries)
        invariant old(pt.entries).Keys !! BlockPages(bs[..i])
        invariant pt.entries.Keys == old(pt.entries).Keys + BlockPages(bs[..i])
      {
        ok := AssignPhysicalMemory(bs[i].addr, attr);
        if !ok {
          return false;
        }
        BlockPagesSnoc(bs, i);
        i := i + 1;
      }
      assert bs[..i] == bs;
      SplitPages(bs, addr, size);
      return true;
    }

    /** FreePhysicalMemory(addr, size): every page of the range is unmapped
        and nothing else changes. */
    method FreeRange(addr: nat, size: nat)
      requires Valid()
      modifies pt
      ensures Valid() && pt.entries == old(pt.entries) - PagesOf(addr, size)
    {
      var bs := SplitAtMapUnitBoundary(addr, size);
      var i := 0;
      while i < |bs|
        invariant 0 <= i <= |bs| && Valid()
        invariant pt.entries == old(pt.entries) - BlockPages(bs[..i])
      {
        FreePhysicalMemory(bs[i].addr);
        BlockPagesSnoc(bs, i);
        i := i + 1;
      }
      assert bs[..i] == bs;
      SplitPages(bs, addr, size);
    }

    /** SetPhysicalMemoryMapping(dst, src): the page of dst shares src's
        physical page; an unmapped src or an already mapped dst is an error. */
    method SetPhysicalMemoryMapping(dst: nat, src: nat, attr: nat) returns (ok: bool)
      requires Valid()
      modifies pt
      ensures Valid()
      ensures ok <==> Base(src) in old(pt.entries) && Base(dst) !in old(pt.entries)
      ensures !ok ==> pt.entries == old(pt.entries) && pt.refs == old(pt.refs)
      ensures ok ==> pt.entries == old(pt.entries)[Base(dst) := Entry(old(pt.entries)[Base(src)].phys, attr)]
    {
      if !pt.IsMapped(src) || pt.IsMapped(dst) {
        return false;
      }
      ok := pt.CopyMap(dst, src, attr);
    }

    /** SetPhysicalMemoryMapping(dst, src, size): every page of the range in
        turn shares src's physical page; the first error stops it. On success
        the pages of the range, none mapped before, are added, all sharing
        src's physical page. */
    method SetMappingRange(dst: nat, src: nat, size: nat, attr: nat) returns (ok: bool)
      requires Valid()
      modifies pt
      ensures Valid() && Extends(old(pt.entries), pt.entries)
      ensures ok ==> (Base(src) in old(pt.entries) &&
        old(pt.entries).Keys !! PagesOf(dst, size) &&
        pt.entries.Keys == old(pt.entries).Keys + PagesOf(dst, size) &&
        forall q :: q in PagesOf(dst, size) ==> pt.entries[q] == Entry(old(pt.entries)[Base(src)].phys, attr))
    {
      var bs := SplitAtMapUnitBoundary(dst, size);
      var i := 0;
      while i < |bs|
        invariant 0 <= i <= |bs| && Valid() && Extends(old(pt.entries), pt.entries)
        invariant old(pt.entries).Keys !! BlockPages(bs[..i])
        invariant pt.entries.Keys == old(pt.entries).Keys + BlockPages(bs[..i])
        invariant i > 0 ==> Base(src) in old(pt.entries)
        invariant forall q :: q in BlockPages(bs[..i]) ==> pt.entries[q] == Entry(old(pt.entries)[Base(src)].phys, attr)
      {
        ok := SetPhysicalMemoryMapping(bs[i].addr, src, attr);
        if !ok {
          return false;
        }
        BlockPagesSnoc(bs, i);
        i := i + 1;
      }
      assert bs[..i] == bs;
      SplitPages(bs, dst, size);
      return true;
    }

    /** SetPageAttribute: a mapped page gets the new attribute. */
    method SetPageAttribute(addr: nat, attr: nat) returns (ok: bool)
      requires Valid()
      modifies pt
      ensures Valid() && pt.refs == old(pt.refs)
      ensures ok <==> Base(addr) in old(pt.entries)
      ensures ok ==> pt.entries == old(pt.entries)[Base(addr) := old(pt.entries)[Base(addr)].(attr := attr)]
      ensures !ok ==> pt.entries == old(pt.entries)
    {
      var page := pt.GetMap(addr);
      if page.None? {
        return false;
      }
      ok := pt.SetMap(addr, page.value.(attr := attr));
    }

    /** The page-by-page effect of TargetMemset and MemCopyToTarget on the
        mapping: copy-on-write of every page of the range (the bytes written
        are not modelled); an unmapped page is an error. */
    method CopyRangeOnWrite(addr: nat, size: nat) returns (ok: bool)
      requires Valid()
      modifies pt
      ensures Valid()
      ensures forall a :: a in old(pt.entries) <==> a in pt.entries
      ensures ok <==> PagesOf(addr, size) <= old(pt.entries).Keys
      ensures ok ==> forall q :: q in PagesOf(addr, size) ==> pt.refs[pt.entries[q].phys] == 1
    {
      var bs := SplitAtMapUnitBoundary(addr, size);
      SplitPages(bs, addr, size);
      var i := 0;
      while i < |bs|
        invariant 0 <= i <= |bs| && Valid()
        invariant forall a :: a in old(pt.entries) <==> a in pt.entries
        invariant BlockPages(bs[..i]) <= old(pt.entries).Keys
        invariant forall q :: q in BlockPages(bs[..i]) ==> pt.refs[pt.entries[q].phys] == 1
      {
        var copied := CopyKeepingPrivate(bs[i].addr, BlockPages(bs[..i]));
        if !copied {
          assert Base(bs[i].addr) in BlockPages(bs);
          return false;
        }
        BlockPagesSnoc(bs, i);
        i := i + 1;
      }
      assert bs[..i] == bs;
      return true;
    }

    /** One page of CopyRangeOnWrite: the pages of s that were private stay
        private and the page of addr becomes private too. */
    method CopyKeepingPrivate(addr: nat, ghost s: set<nat>) returns (ok: bool)
      requires Valid() && s <= pt.entries.Keys
      requires forall q :: q in s ==> pt.refs[pt.entries[q].phys] == 1
      modifies pt
      ensures Valid()
      ensures forall a :: a in old(pt.entries) <==> a in pt.entries
      ensures ok <==> Base(addr) in old(pt.entries)
      ensures ok ==> forall q :: q in s + {Base(addr)} ==> pt.refs[pt.entries[q].phys] == 1
    {
      ghost var e0, r0, n0 := pt.entries, pt.refs, pt.nextPhys;
      var r := CopyPageOnWrite(addr);
      if r.Fail? {
        return false;
      }
      PrivateKept(e0, r0, n0, pt.entries, pt.refs, Base(addr), s, r.value);
      return true;
    }
  }
}
