/** The memory-order unit's value arithmetic: overlap and containment of
    accesses, store-to-load forwarding, merging a store into a wider value,
    endian conversion and the alignment mask. Register values and memory
    images are 64-bit words given as their eight bytes (Word); addresses and
    sizes are naturals; the alignment mask is a bv64. */
module MemOrderOps {
  import opened Wrappers
  import opened Arith

  /** shttl::umax(w): the w low bits set (all 64 for w = 64). */
  function UMax(w: bv64): bv64
    requires w <= 64
  {
    ((((w >> 6) & 1) ^ 1) << (w & 63)) - 1
  }

  /** shttl::mask(pos, width): width bits set from bit pos up. */
  function Mask(pos: bv64, width: bv64): bv64
    requires pos < 64 && width <= 64 && pos + width <= 64
  {
    UMax(width) << pos
  }

  /** A 64-bit value as its eight bytes, least significant first: byte k
      holds bits 8k..8k+7, so shifting right by 8k bits drops the first k
      bytes, masking to 8n bits keeps the first n, and shttl::deposit of 8
      bits at bit 8k replaces byte k. */
  type Word = w: seq<bv8> | |w| == 8 witness [0, 0, 0, 0, 0, 0, 0, 0]

  function Zeros(n: nat): (r: seq<bv8>)
    ensures |r| == n && forall k :: 0 <= k < n ==> r[k] == 0
  {
    if n == 0 then [] else Zeros(n - 1) + [0]
  }

  function Reverse(s: seq<bv8>): (r: seq<bv8>)
    ensures |r| == |s| && forall k :: 0 <= k < |s| ==> r[k] == s[|s| - 1 - k]
  {
    if s == [] then [] else Reverse(s[1..]) + [s[0]]
  }

  predicate ValidSize(size: nat)
  {
    size == 1 || size == 2 || size == 4 || size == 8
  }

  /** The value cast to a size-byte integer and widened again: its low size
      bytes, zeros above. */
  function Low(v: Word, size: nat): (r: Word)
    requires size <= 8
  {
    v[..size] + Zeros(8 - size)
  }

  /** CorrectEndian: on a little-endian target the value itself; otherwise
      ConvertEndian of the value cast to size bytes (size 1, 2, 4 or 8),
      which reverses its low size bytes and leaves zeros above; any other
      size is the error "Invalid size.". */
  function CorrectEndian(src: Word, size: nat, little: bool): (r: Result<Word>)
    ensures r.Fail? <==> !little && !ValidSize(size)
    ensures r.Fail? ==> r.error == "Invalid size."
    ensures little ==> r == Ok(src)
    ensures r.Ok? && !little ==> forall k :: 0 <= k < 8 ==>
      r.value[k] == if k < size then src[size - 1 - k] else 0
  {
    if little then Ok(src)
    else if ValidSize(size) then
      var swapped: Word := Reverse(src[..size]) + Zeros(8 - size);
      Ok(swapped)
    else Fail("Invalid size.")
  }

  /** Converting twice gives back the low size bytes. */
  lemma CorrectEndianTwice(src: Word, size: nat, little: bool)
    requires little || ValidSize(size)
    ensures CorrectEndian(CorrectEndian(src, size, little).value, size, little).value ==
      if little then src else Low(src, size)
  {
    if !little {
      var twice := CorrectEndian(CorrectEndian(src, size, false).value, size, false).value;
      forall k | 0 <= k < 8
        ensures twice[k] == Low(src, size)[k]
      {
      }
    }
  }

  /** IsOverlapped: one access starts inside the other. */
  predicate IsOverlapped(addr1: nat, size1: int, addr2: nat, size2: int)
  {
    (addr1 <= addr2 && addr2 < addr1 + size1) ||
    (addr2 <= addr1 && addr1 < addr2 + size2)
  }

  /** x lies in [addr, addr+size). */
  predicate InRange(x: nat, addr: nat, size: int)
  {
    addr <= x < addr + size
  }

  /** IsOverlapped is symmetric and holds exactly when some address lies in
      both accesses. */
  lemma OverlapMeansCommonByte(addr1: nat, size1: int, addr2: nat, size2: int)
    requires size1 > 0 && size2 > 0
    ensures IsOverlapped(addr1, size1, addr2, size2) == IsOverlapped(addr2, size2, addr1, size1)
    ensures IsOverlapped(addr1, size1, addr2, size2) <==>
      exists x: nat :: InRange(x, addr1, size1) && InRange(x, addr2, size2)
  {
    if IsOverlapped(addr1, size1, addr2, size2) {
      var x := if addr1 <= addr2 then addr2 else addr1;
      assert InRange(x, addr1, size1) && InRange(x, addr2, size2);
    }
  }

  /** IsInnerAccess: [inner, inner+innerSize) lies within [outer, outer+outerSize). */
  predicate IsInnerAccess(inner: nat, innerSize: int, outer: nat, outerSize: int)
  {
    outer <= inner && inner + innerSize <= outer + outerSize
  }

  /** A non-empty inner access is inner exactly when each of its addresses
      lies in the outer access; an inner access overlaps its outer one. */
  lemma InnerMeansContained(inner: nat, innerSize: int, outer: nat, outerSize: int)
    requires innerSize > 0
    ensures IsInnerAccess(inner, innerSize, outer, outerSize) <==>
      forall x: nat :: InRange(x, inner, innerSize) ==> InRange(x, outer, outerSize)
    ensures IsInnerAccess(inner, innerSize, outer, outerSize) ==>
      IsOverlapped(inner, innerSize, outer, outerSize)
  {
    if forall x: nat :: InRange(x, inner, innerSize) ==> InRange(x, outer, outerSize) {
      assert InRange(inner, inner, innerSize);
      assert InRange(inner + innerSize - 1, inner, innerSize);
    }
  }

  /** A memory access: address, size in bytes, register value and sign flag. */
  datatype MemAccess = MemAccess(address: nat, size: nat, value: Word, sign: bool)

  /** The memory image of a size-byte register value: byte k is the byte
      stored at address + k. */
  function Image(v: Word, size: nat, little: bool): Word
    requires little || ValidSize(size)
  {
    CorrectEndian(v, size, little).value
  }

  /** (storeMem >> 8*off) & mask(0, 8*n): the n bytes of the store image
      from byte off on, zeros above. */
  function LoadImage(storeMem: Word, off: nat, n: nat): (r: Word)
    requires off + n <= 8
    ensures forall k :: 0 <= k < 8 ==> r[k] == if k < n then storeMem[off + k] else 0
  {
    storeMem[off..off + n] + Zeros(8 - n)
  }

  /** ReadPreviousAccess: the value a load reads from an earlier store that
      contains it (the caller guarantees containment): the store value's
      memory image, shifted down to the load's address and cut to the load's
      size, turned back into a register value. */
  function ReadPreviousAccess(load: MemAccess, store: MemAccess, little: bool): (r: Result<Word>)
    requires IsInnerAccess(load.address, load.size, store.address, store.size)
    requires store.size <= 8
    ensures r.Fail? <==> !little && (!ValidSize(store.size) || !ValidSize(load.size))
  {
    var storeMem := CorrectEndian(store.value, store.size, little);
    if storeMem.Fail? then Fail(storeMem.error)
    else
      var loadMem := LoadImage(storeMem.value, load.address - store.address, load.size);
      CorrectEndian(loadMem, load.size, little)
  }

  /** Store-to-load forwarding: the forwarded value's memory image is the
      slice of the store's memory image that the load covers, byte for byte
      at the same addresses, with zeros above the load's size. */
  lemma ForwardedImage(load: MemAccess, store: MemAccess, little: bool)
    requires IsInnerAccess(load.address, load.size, store.address, store.size)
    requires store.size <= 8
    requires little || (ValidSize(store.size) && ValidSize(load.size))
    ensures Image(ReadPreviousAccess(load, store, little).value, load.size, little) ==
      LoadImage(Image(store.value, store.size, little), load.address - store.address, load.size)
    ensures forall k :: 0 <= k < 8 ==>
      Image(ReadPreviousAccess(load, store, little).value, load.size, little)[k] ==
        if k < load.size then Image(store.value, store.size, little)[load.address - store.address + k] else 0
  {
    var loadMem := LoadImage(Image(store.value, store.size, little), load.address - store.address, load.size);
    CorrectEndianTwice(loadMem, load.size, little);
    if !little {
      assert Low(loadMem, load.size) == loadMem;
    }
  }

  /** Base byte j lies inside the base and its address inside the first done
      bytes of the store. */
  predicate CoveredBy(base: MemAccess, store: MemAccess, done: nat, j: nat)
  {
    j < base.size && InRange(base.address + j, store.address, done)
  }

  /** Byte j of the merged value once store bytes 0..done-1 are deposited:
      the store image's byte at the same address where covered, else the
      base's byte. */
  function MergedByte(base: MemAccess, store: MemAccess, storeMem: Word, done: nat, j: nat): bv8
    requires j < 8 && done <= store.size <= 8
  {
    if CoveredBy(base, store, done, j) then storeMem[base.address + j - store.address]
    else base.value[j]
  }

  /** Depositing store byte i at the base byte with the same address extends
      the merge by that byte. */
  lemma MergeStep(merged: Word, base: MemAccess, store: MemAccess, storeMem: Word, i: nat, baseOffset: nat,
                  next: Word, done: nat)
    requires base.size <= 8 && store.size <= 8 && i < store.size && done == i + 1
    requires baseOffset < base.size && base.address + baseOffset == store.address + i
    requires forall j :: 0 <= j < 8 ==> merged[j] == MergedByte(base, store, storeMem, i, j)
    requires next == merged[baseOffset := storeMem[i]]
    ensures forall j :: 0 <= j < 8 ==> next[j] == MergedByte(base, store, storeMem, done, j)
  {
    forall j | 0 <= j < 8
      ensures next[j] == MergedByte(base, store, storeMem, done, j)
    {
      if j != baseOffset {
        assert CoveredBy(base, store, done, j) == CoveredBy(base, store, i, j);
      }
    }
  }

  /** A store byte below the base changes no base byte's merge. */
  lemma MergeSkip(base: MemAccess, store: MemAccess, storeMem: Word, i: nat)
    requires store.size <= 8 && i < store.size && store.address + i < base.address
    ensures forall j :: 0 <= j < 8 ==>
      MergedByte(base, store, storeMem, i + 1, j) == MergedByte(base, store, storeMem, i, j)
  {
    forall j | 0 <= j < 8
      ensures MergedByte(base, store, storeMem, i + 1, j) == MergedByte(base, store, storeMem, i, j)
    {
      assert CoveredBy(base, store, i + 1, j) == CoveredBy(base, store, i, j);
    }
  }

  /** Once store byte i lies past the base, no later store byte lands in it. */
  lemma MergeRest(base: MemAccess, store: MemAccess, storeMem: Word, i: nat)
    requires i <= store.size <= 8
    requires i < store.size ==> store.address + i >= base.address + base.size
    ensures forall j :: 0 <= j < 8 ==>
      MergedByte(base, store, storeMem, store.size, j) == MergedByte(base, store, storeMem, i, j)
  {
    forall j | 0 <= j < 8
      ensures MergedByte(base, store, storeMem, store.size, j) == MergedByte(base, store, storeMem, i, j)
    {
      assert CoveredBy(base, store, store.size, j) == CoveredBy(base, store, i, j);
    }
  }

  /** The merge loop: deposits each byte of the store image storeMem whose
      address falls inside the base into the base value, in store order. */
  method DepositStoreBytes(base: MemAccess, store: MemAccess, storeMem: Word) returns (merged: Word)
    requires base.size <= 8 && store.size <= 8
    ensures forall j :: 0 <= j < 8 ==> merged[j] == MergedByte(base, store, storeMem, store.size, j)
  {
    merged := base.value;
    var i: nat := 0;
    if base.address < store.address {
      var start: nat := store.address - base.address;
      while i < store.size
        invariant i <= store.size
        invariant forall j :: 0 <= j < 8 ==> merged[j] == MergedByte(base, store, storeMem, i, j)
      {
        var baseOffset := i + start;
        if baseOffset >= base.size {
          break;
        }
        var next := merged[baseOffset := storeMem[i]];
        MergeStep(merged, base, store, storeMem, i, baseOffset, next, i + 1);
        merged := next;
        i := i + 1;
      }
    } else {
      var start: nat := base.address - store.address;
      while i < store.size
        invariant i <= store.size
        invariant forall j :: 0 <= j < 8 ==> merged[j] == MergedByte(base, store, storeMem, i, j)
      {
        var baseOffset: int := i - start;
        if baseOffset < 0 {
          MergeSkip(base, store, storeMem, i);
          i := i + 1;
          continue;
        }
        if baseOffset >= base.size {
          break;
        }
        var next := merged[baseOffset := storeMem[i]];
        MergeStep(merged, base, store, storeMem, i, baseOffset, next, i + 1);
        merged := next;
        i := i + 1;
      }
    }
    MergeRest(base, store, storeMem, i);
  }

  /** MergePartialAccess (corrected): converts the store value to its memory
      image by the store's size; then each base byte whose address the store
      covers takes the store's byte at that address and every other base
      byte is kept. */
  method MergePartialAccess(base: MemAccess, store: MemAccess, little: bool) returns (r: Result<Word>)
    requires base.size <= 8 && store.size <= 8
    ensures r.Fail? <==> !little && !ValidSize(store.size)
    ensures r.Fail? ==> r.error == "Invalid size."
    ensures r.Ok? ==> forall j :: 0 <= j < 8 ==>
      r.value[j] == MergedByte(base, store, Image(store.value, store.size, little), store.size, j)
  {
    var storeMem := CorrectEndian(store.value, store.size, little);
    if storeMem.Fail? {
      return Fail(storeMem.error);
    }
    var merged := DepositStoreBytes(base, store, storeMem.value);
    return Ok(merged);
  }

  /** MergePartialAccess as written: the store value is converted with the
      store's sign flag (0 or 1) as its size. */
  method MergePartialAccessAsWritten(base: MemAccess, store: MemAccess, little: bool) returns (r: Result<Word>)
    requires base.size <= 8 && store.size <= 8
    ensures r.Fail? <==> !little && !store.sign
    ensures r.Fail? ==> r.error == "Invalid size."
    ensures r.Ok? ==> forall j :: 0 <= j < 8 ==>
      r.value[j] == MergedByte(base, store, Image(store.value, if store.sign then 1 else 0, little), store.size, j)
  {
    var storeMem := CorrectEndian(store.value, if store.sign then 1 else 0, little);
    if storeMem.Fail? {
      return Fail(storeMem.error);
    }
    var merged := DepositStoreBytes(base, store, storeMem.value);
    return Ok(merged);
  }

  /** On a big-endian target, the as-written merge of an unsigned 4-byte
      store fails with "Invalid size.", while the corrected merge succeeds. */
  method UnsignedStoreMergeAsWritten() returns (asWritten: Result<Word>, corrected: Result<Word>)
    ensures asWritten == Fail("Invalid size.") && corrected.Ok?
  {
    var base := MemAccess(0x1000, 8, [0, 0, 0, 0, 0, 0, 0, 0], false);
    var store := MemAccess(0x1000, 4, [0x44, 0x33, 0x22, 0x11, 0, 0, 0, 0], false);
    asWritten := MergePartialAccessAsWritten(base, store, false);
    corrected := MergePartialAccess(base, store, false);
  }

  /** UMax(bits) shifted into place: the mask SetAlignment builds clears
      exactly the low bits bits. */
  lemma AlignMask(bits: bv64)
    requires bits < 32
    ensures Mask(bits, 64 - bits) == !UMax(bits)
  {
  }

  /** shttl::mask(bits, 64 - bits): every bit from bit bits up. */
  function AlignmentMask(bits: nat): (r: bv64)
    requires bits < 31
    ensures r == !UMax(bits as bv64)
  {
    var b := bits as bv64;
    AlignMask(b);
    Mask(b, 64 - b)
  }

  /** The mask keeps the address rounded down to a 2^bits boundary: its low
      bits are clear and the bits it drops are below 2^bits. */
  lemma RoundDown(bits: bv64, a: bv64)
    requires bits < 32
    ensures (a & !UMax(bits)) & UMax(bits) == 0
    ensures (a & !UMax(bits)) + (a & UMax(bits)) == a
    ensures (a & UMax(bits)) < (1 << bits)
  {
  }

  /** One halving step of SetAlignment's bit count: rest is a divided by
      2^count, rounded down. */
  lemma HalveStep(a: nat, rest: nat, count: nat)
    requires rest >= 1 && rest * Pow2(count) <= a < (rest + 1) * Pow2(count)
    ensures (rest / 2) * Pow2(count + 1) <= a < (rest / 2 + 1) * Pow2(count + 1)
    ensures Pow2(count) <= a
  {
    var p := Pow2(count);
    assert Pow2(count + 1) == 2 * p;
    assert (rest / 2) * (2 * p) == (2 * (rest / 2)) * p;
    assert (rest / 2 + 1) * (2 * p) == (2 * (rest / 2) + 2) * p;
    MulMono(p, 2 * (rest / 2), rest);
    MulMono(p, rest + 1, 2 * (rest / 2) + 2);
    MulMono(p, 1, rest);
  }

  /** A power of two below 2^31 has an exponent below 31. */
  lemma SmallExponent(k: nat, a: nat)
    requires Pow2(k) <= a < 0x8000_0000
    ensures k < 31
  {
    if k >= 31 {
      Pow2Mono(31, k);
      Pow2Of31();
    }
  }

  /** SetAlignment's loop: the number of times a can be halved before it
      reaches zero, i.e. its bit length. */
  method BitLength(a: nat) returns (count: nat)
    requires 0 < a < 0x8000_0000
    ensures 1 <= count <= 31 && Pow2(count - 1) <= a < Pow2(count)
  {
    count := 0;
    var rest: nat := a;
    while rest != 0
      invariant count <= 31
      invariant rest * Pow2(count) <= a < (rest + 1) * Pow2(count)
      invariant count > 0 ==> Pow2(count - 1) <= a
      invariant count == 0 ==> rest == a
      decreases rest
    {
      HalveStep(a, rest, count);
      SmallExponent(count, a);
      count := count + 1;
      rest := rest / 2;
    }
  }

  /** The configuration of the memory-order operations: target byte order,
      access alignment and the address mask derived from it. */
  class MemOrderOperations {
    var little: bool
    var alignment: nat
    var alignmentMask: bv64

    /** A big-endian target, alignment 1, a mask of all ones. */
    constructor()
      ensures !little && alignment == 1 && alignmentMask == 0xFFFF_FFFF_FFFF_FFFF
    {
      little := false;
      alignment := 1;
      alignmentMask := 0xFFFF_FFFF_FFFF_FFFF;
    }

    method SetTargetEndian(isLittle: bool)
      modifies this
      ensures little == isLittle && alignment == old(alignment) && alignmentMask == old(alignmentMask)
    {
      little := isLittle;
    }

    /** SetAlignment: records the alignment and sets the mask to clear the
        low bits of an address, where bits = floor(log2(a)). */
    method SetAlignment(a: nat) returns (ghost bits: nat)
      requires 0 < a < 0x8000_0000
      modifies this
      ensures little == old(little) && alignment == a
      ensures bits < 31 && Pow2(bits) <= a < Pow2(bits + 1)
      ensures alignmentMask == AlignmentMask(bits)
    {
      alignment := a;
      var count := BitLength(a);
      bits := count - 1;
      alignmentMask := AlignmentMask(count - 1);
    }

    /** IsOverlappedInAligned: the two addresses agree under the mask. */
    predicate IsOverlappedInAligned(addr1: bv64, addr2: bv64)
      reads this
    {
      (addr1 & alignmentMask) == (addr2 & alignmentMask)
    }
  }
}
