/** Access to user memory as in janglib/src/memory.rs: only the first address of a range
    is translated, and the rest is taken to follow it in physical memory. */
module UserSlices {
  import opened Wrappers
  import opened PhysicalMemory
  import opened PageTableEntries
  import opened PageTree
  import opened Paging

  /** Where the flat map puts page `q` of the address space. */
  function FrameBase(m: Ram, t: Tables, q: nat): nat {
    GetPhysicalAddress(Leaf(m, t, q % VPN_LIMIT))
  }

  /** Where the flat map puts one byte. */
  function ByteAddress(m: Ram, t: Tables, va: nat): nat {
    FrameBase(m, t, va / PAGE_SIZE) + va % PAGE_SIZE
  }

  predicate FrameMapped(m: Ram, t: Tables, q: nat) {
    IsValid(Leaf(m, t, q % VPN_LIMIT))
  }

  predicate PageMapped(m: Ram, t: Tables, va: nat) {
    FrameMapped(m, t, va / PAGE_SIZE)
  }

  /** What `read` returns; it unwraps the translation of the first address. */
  function Read(m: Ram, t: Tables, start: nat, size: nat): Option<seq<int>> {
    if PageMapped(m, t, start) then Some(ReadRange(m, t, start, size)) else None
  }

  /** The `size` bytes from the translation of the first. */
  function ReadRange(m: Ram, t: Tables, start: nat, size: nat): seq<int> {
    seq(size, (i: nat) => ByteAddress(m, t, start) + i)
  }

  /** The bytes that translating every address would give. */
  function PerByteRange(m: Ram, t: Tables, start: nat, size: nat): seq<int> {
    seq(size, (i: nat) => ByteAddress(m, t, start + i))
  }

  /** The bytes that `write` changes: as many as both the range and the data have. */
  function WriteRange(m: Ram, t: Tables, start: nat, size: nat, len: nat): seq<int> {
    ReadRange(m, t, start, if size <= len then size else len)
  }

  /** Byte `i` of the range lies where counting on from the first byte puts it. */
  predicate InLine(m: Ram, t: Tables, start: nat, i: nat) {
    ByteAddress(m, t, start + i) == ByteAddress(m, t, start) + i
  }

  predicate NextPageAdjoins(m: Ram, t: Tables, q: nat) {
    FrameBase(m, t, q + 1) == FrameBase(m, t, q) + PAGE_SIZE
  }

  /** Neighbouring pages of the range lie next to each other in physical memory. */
  ghost predicate PagesAdjoin(m: Ram, t: Tables, start: nat, size: nat) {
    forall q: nat :: start / PAGE_SIZE <= q && (q + 1) * PAGE_SIZE < start + size ==> NextPageAdjoins(m, t, q)
  }

  lemma InLineByPages(m: Ram, t: Tables, start: nat, i: nat)
    ensures InLine(m, t, start, i) <==>
            FrameBase(m, t, (start + i) / PAGE_SIZE) ==
            FrameBase(m, t, start / PAGE_SIZE) + PAGE_SIZE * ((start + i) / PAGE_SIZE - start / PAGE_SIZE)
  {
    hide FrameBase;
  }

  lemma {:induction false} FramesAreLinear(m: Ram, t: Tables, start: nat, size: nat, q: nat)
    requires PagesAdjoin(m, t, start, size) && start / PAGE_SIZE <= q
    requires q * PAGE_SIZE < start + size || q == start / PAGE_SIZE
    ensures FrameBase(m, t, q) == FrameBase(m, t, start / PAGE_SIZE) + PAGE_SIZE * (q - start / PAGE_SIZE)
    decreases q
  {
    hide FrameBase;
    if q > start / PAGE_SIZE {
      FramesAreLinear(m, t, start, size, q - 1);
      AdjoinAt(m, t, start, size, q - 1);
    }
  }

  lemma AdjoinAt(m: Ram, t: Tables, start: nat, size: nat, q: nat)
    requires PagesAdjoin(m, t, start, size) && start / PAGE_SIZE <= q && (q + 1) * PAGE_SIZE < start + size
    ensures FrameBase(m, t, q + 1) == FrameBase(m, t, q) + PAGE_SIZE
  {
    assert NextPageAdjoins(m, t, q);
  }

  lemma RangesAgreeIff(m: Ram, t: Tables, start: nat, size: nat)
    ensures ReadRange(m, t, start, size) == PerByteRange(m, t, start, size) <==>
            forall i: nat :: i < size ==> InLine(m, t, start, i)
  {
    hide ByteAddress;
    if ReadRange(m, t, start, size) == PerByteRange(m, t, start, size) {
      forall i: nat | i < size ensures InLine(m, t, start, i) {
        assert ReadRange(m, t, start, size)[i] == PerByteRange(m, t, start, size)[i];
      }
    } else if forall i: nat :: i < size ==> InLine(m, t, start, i) {
      forall i: nat | i < size ensures ReadRange(m, t, start, size)[i] == PerByteRange(m, t, start, size)[i] {
        assert InLine(m, t, start, i);
      }
    }
  }

  lemma AdjoinIff(m: Ram, t: Tables, start: nat, size: nat)
    ensures ReadRange(m, t, start, size) == PerByteRange(m, t, start, size) <==> PagesAdjoin(m, t, start, size)
  {
    RangesAgreeIff(m, t, start, size);
    hide ReadRange;
    hide PerByteRange;
    hide InLine;
    hide FrameBase;
    if PagesAdjoin(m, t, start, size) {
      forall i: nat | i < size ensures InLine(m, t, start, i) {
        FramesAreLinear(m, t, start, size, (start + i) / PAGE_SIZE);
        InLineByPages(m, t, start, i);
      }
    } else {
      var q: nat :| start / PAGE_SIZE <= q && (q + 1) * PAGE_SIZE < start + size && !NextPageAdjoins(m, t, q);
      BrokenAt(m, t, start, size, q);
    }
  }

  lemma BrokenAt(m: Ram, t: Tables, start: nat, size: nat, q: nat)
    requires start / PAGE_SIZE <= q && (q + 1) * PAGE_SIZE < start + size && !NextPageAdjoins(m, t, q)
    ensures exists i: nat :: i < size && !InLine(m, t, start, i)
  {
    hide FrameBase;
    hide InLine;
    var i := (q + 1) * PAGE_SIZE - start;
    InLineByPages(m, t, start, i);
    InLineByPages(m, t, start, i - 1);
    assert (start + i) / PAGE_SIZE == q + 1 && (start + (i - 1)) / PAGE_SIZE == q;
    assert !InLine(m, t, start, i) || !InLine(m, t, start, i - 1);
  }

  /** Every page of the range is mapped. */
  ghost predicate PagesMapped(m: Ram, t: Tables, start: nat, size: nat) {
    forall q: nat :: start / PAGE_SIZE <= q && q * PAGE_SIZE < start + size ==> FrameMapped(m, t, q)
  }

  /** `read` succeeds, and every byte of it is the one that its own address translates to. */
  ghost predicate ReadsRight(m: Ram, t: Tables, start: nat, size: nat) {
    && Read(m, t, start, size).Some? && |Read(m, t, start, size).value| == size
    && (forall i: nat :: i < size ==> Read(m, t, start, size).value[i] == ByteAddress(m, t, start + i))
    && forall b: nat :: start <= b < start + size ==> PageMapped(m, t, b)
  }

  lemma ReadIff(m: Ram, t: Tables, start: nat, size: nat)
    ensures var bytes := ReadRange(m, t, start, size);
            |bytes| == size &&
            (bytes == PerByteRange(m, t, start, size) <==>
             forall i: nat :: i < size ==> bytes[i] == ByteAddress(m, t, start + i))
  {
    hide ByteAddress;
    var bytes, each := ReadRange(m, t, start, size), PerByteRange(m, t, start, size);
    assert forall i: nat :: i < size ==> each[i] == ByteAddress(m, t, start + i);
  }

  /** Translating only the first address is right exactly when every page is mapped and
      neighbouring pages adjoin. */
  lemma FirstTranslationSufficesIff(m: Ram, t: Tables, start: nat, size: nat)
    ensures ReadsRight(m, t, start, size) <==>
            PageMapped(m, t, start) && PagesMapped(m, t, start, size) && PagesAdjoin(m, t, start, size)
  {
    AdjoinIff(m, t, start, size);
    ReadIff(m, t, start, size);
    hide ReadRange;
    hide ByteAddress;
    hide PerByteRange;
    hide FrameMapped;
    hide PagesAdjoin;
    if ReadsRight(m, t, start, size) {
      forall q: nat | start / PAGE_SIZE <= q && q * PAGE_SIZE < start + size ensures FrameMapped(m, t, q) {
        if q > start / PAGE_SIZE { assert PageMapped(m, t, q * PAGE_SIZE); }
      }
    } else if PagesMapped(m, t, start, size) {
      forall b: nat | start <= b < start + size ensures PageMapped(m, t, b) {
        assert FrameMapped(m, t, b / PAGE_SIZE);
      }
    }
  }

  /** Inside one successful `map` call every byte is mapped, byte `va + d` of the request
      is byte `d` of the physical block, and so reads and writes touch exactly the bytes
      of a per-byte translation. */
  lemma SliceInsideOneMapping(m0: Ram, t0: Tables, m: Ram, t: Tables, va: nat, pa: nat, fl: Flags, n: nat,
                              start: nat, size: nat, len: nat)
    requires MapsPrefix(m0, t0, m, t, va, pa, fl, n) && va % PAGE_SIZE == 0
    requires n <= VPN_LIMIT && pa / PAGE_SIZE + n <= FRAME_LIMIT
    requires va <= start && start + size <= va + n * PAGE_SIZE
    ensures forall b: nat :: start <= b < start + size ==>
                               PageMapped(m, t, b) && ByteAddress(m, t, b) == pa / PAGE_SIZE * PAGE_SIZE + (b - va)
    ensures ReadRange(m, t, start, size) == PerByteRange(m, t, start, size)
    ensures WriteRange(m, t, start, size, len) == PerByteRange(m, t, start, if size <= len then size else len)
  {
    hide MapsPrefix;
    hide PageMapped;
    hide FrameBase;
    forall b: nat | start <= b < start + size
      ensures PageMapped(m, t, b) && ByteAddress(m, t, b) == pa / PAGE_SIZE * PAGE_SIZE + (b - va)
    {
      ByteInsideMapping(m0, t0, m, t, va, pa, fl, n, b);
    }
    hide ByteAddress;
    forall i: nat | i < size ensures InLine(m, t, start, i) {
      assert start <= start + i < start + size;
    }
    RangesAgreeIff(m, t, start, size);
    RangesAgreeIff(m, t, start, if size <= len then size else len);
  }

  lemma ByteInsideMapping(m0: Ram, t0: Tables, m: Ram, t: Tables, va: nat, pa: nat, fl: Flags, n: nat, b: nat)
    requires MapsPrefix(m0, t0, m, t, va, pa, fl, n) && va % PAGE_SIZE == 0
    requires n <= VPN_LIMIT && pa / PAGE_SIZE + n <= FRAME_LIMIT && va <= b < va + n * PAGE_SIZE
    ensures PageMapped(m, t, b) && ByteAddress(m, t, b) == pa / PAGE_SIZE * PAGE_SIZE + (b - va)
  {
    hide LeafWord;
    hide IsValid;
    hide GetPhysicalAddress;
    hide Leaf;
    hide FlagsOf;
    var d := (b - va) / PAGE_SIZE;
    PageOfByte(va, b, d);
    LeafReadsBack(pa / PAGE_SIZE + d, fl);
  }

  lemma PageOfByte(va: nat, b: nat, d: nat)
    requires va % PAGE_SIZE == 0 && va <= b && d == (b - va) / PAGE_SIZE && d < VPN_LIMIT
    ensures Offset(Vpn(b), va) == d && b % PAGE_SIZE == b - va - d * PAGE_SIZE
  {
    assert b / PAGE_SIZE == va / PAGE_SIZE + d && b % PAGE_SIZE == b - va - d * PAGE_SIZE;
    var c := b / PAGE_SIZE / VPN_LIMIT;
    assert Vpn(b) - va / PAGE_SIZE == d - VPN_LIMIT * c;
    ModShift(d, c);
  }

  /** Reading through the flat map is what `va2pa` answers. */
  lemma ByteAddressIsTranslation(m: Ram, t: Tables, va: nat, r: Result<nat>)
    requires Translates(m, t, va, r)
    ensures r.Ok? <==> PageMapped(m, t, va)
    ensures r.Ok? ==> r.value == ByteAddress(m, t, va)
  {}
}
