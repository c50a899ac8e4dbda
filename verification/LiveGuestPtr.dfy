/** Resolving an RSX (location, offset) interval to guest memory (`yz_rsx_io_to_ea`,
    `yz_rsx_live_guest_ptr`): checking page boundaries is as good as checking every byte. */
module LiveGuestPtr {
  import opened Basics

  const PAGE := 0x10_0000
  const PAGES := 4096
  const UNMAPPED := 0xFFFF_FFFF

  /** The effective address of an io offset under a page table; 0 when its page is unmapped. */
  function IoToEa(pages: seq<U32>, io: U32): U32
    requires |pages| == PAGES
  {
    var base := pages[io / PAGE];
    if base == UNMAPPED then 0 else (base + io % PAGE) % M32
  }

  /** A mapped megabyte of io space is a megabyte of guest memory in line, from its entry on; an unmapped one is
      nothing. */
  lemma PageMapsInLine(pages: seq<U32>, page: nat, k: nat)
    requires |pages| == PAGES && page < 4096 && k < 0x10_0000
    ensures page * 0x10_0000 + k < M32 && PAGES * 0x10_0000 == M32
    ensures IoToEa(pages, page * 0x10_0000 + k)
         == if pages[page] == 0xFFFF_FFFF then 0 else (pages[page] + k) % 0x1_0000_0000
  {
    QuotientIs(page * 0x10_0000 + k, 0x10_0000, page, k);
  }

  /** The 249 MB of RSX local memory end at 0xCF900000. */
  lemma LocalMemoryEnds(r: Resolver)
    ensures r.LOCAL_SIZE == 249 * 0x10_0000 && r.LOCAL_BASE + r.LOCAL_SIZE == 0xCF90_0000
  {
  }

  /** Byte k of the interval maps to the k-th byte after the first one, without 32-bit wrap. */
  ghost predicate ByteMapped(pages: seq<U32>, offset: U32, k: int)
    requires |pages| == PAGES && 0 <= k && offset + k < M32
  {
    IoToEa(pages, offset + k) == IoToEa(pages, offset) + k
  }

  ghost predicate AllBytesMapped(pages: seq<U32>, offset: U32, size: nat)
    requires |pages| == PAGES && offset + size <= M32
  {
    forall k :: 0 <= k < size ==> ByteMapped(pages, offset, k)
  }

  /** Inside one page the mapping is linear up to a byte that does not wrap below the first. */
  lemma PageIsLinear(pages: seq<U32>, lo: U32, k: int, hi: int)
    requires |pages| == PAGES && lo + hi < M32 && 0 <= k <= hi
    requires lo % PAGE + hi < PAGE
    requires IoToEa(pages, lo) != 0 && IoToEa(pages, lo + hi) == IoToEa(pages, lo) + hi
    ensures IoToEa(pages, lo + k) == IoToEa(pages, lo) + k
  {
    SamePage(lo, hi);
    SamePage(lo, k);
  }

  lemma SamePage(lo: int, k: int)
    requires 0 <= lo && 0 <= k && lo % PAGE + k < PAGE
    ensures (lo + k) / PAGE == lo / PAGE && (lo + k) % PAGE == lo % PAGE + k
  {
  }

  /** The last byte of a page below a boundary that continues the mapping: the page cannot have wrapped. */
  lemma PageBeforeBoundary(pages: seq<U32>, lo: U32, k: int, n: int)
    requires |pages| == PAGES && lo + n < M32 && 0 <= k < n
    requires lo % PAGE + n == PAGE
    requires IoToEa(pages, lo) != 0 && IoToEa(pages, lo) + n < M32
    ensures IoToEa(pages, lo + k) == IoToEa(pages, lo) + k
  {
    SamePage(lo, k);
  }

  class Resolver {
    var iomap: array<U32>
    var initialized: bool
    var localMemSize: U32

    const LOCAL_BASE: U32 := 0xC000_0000
    const LOCAL_SIZE: U32 := 0x0F90_0000

    ghost predicate Valid()
      reads this
    {
      iomap.Length == PAGES
    }

    constructor ()
      ensures Valid() && fresh(iomap) && !initialized && localMemSize == 0
    {
      iomap := new U32[PAGES](_ => 0);
      initialized := false;
      localMemSize := 0;
    }

    /** The first use marks every page unmapped; later uses change nothing. */
    method EnsureInit()
      requires Valid()
      modifies this`initialized, iomap
      ensures Valid() && initialized
      ensures old(initialized) ==> iomap[..] == old(iomap[..])
      ensures !old(initialized) ==> forall i :: 0 <= i < PAGES ==> iomap[i] == UNMAPPED
    {
      if !initialized {
        initialized := true;
        for i := 0 to PAGES
          invariant Valid() && initialized && forall j :: 0 <= j < i ==> iomap[j] == UNMAPPED
        {
          iomap[i] := UNMAPPED;
        }
      }
    }

    /** location 0 is RSX local memory, location 1 main memory through the io map. A pointer comes back
        exactly when every one of the promised bytes is there. */
    method LiveGuestPtr(location: U32, offset: U32, minBytes: U32) returns (r: Option<U32>)
      requires Valid()
      ensures location == 0 ==>
                (r.Some? <==>
                   offset < Min(localMemSize, LOCAL_SIZE) && offset + minBytes <= Min(localMemSize, LOCAL_SIZE))
                && (r.Some? ==> r.value == LOCAL_BASE + offset)
      ensures location == 1 ==>
                (r.Some? <==> offset + minBytes <= M32 && IoToEa(iomap[..], offset) != 0
                              && AllBytesMapped(iomap[..], offset, minBytes))
                && (r.Some? ==> r.value == IoToEa(iomap[..], offset))
      ensures location > 1 ==> r.None?
    {
      var end := offset + minBytes;
      if end > M32 {
        return None;
      }
      if location == 0 {
        var size := Min(localMemSize, LOCAL_SIZE);
        if offset >= size || end > size {
          return None;
        }
        return Some(LOCAL_BASE + offset);
      }
      if location != 1 {
        return None;
      }
      r := MainMemory(offset, minBytes);
    }

    /** Main memory: check the first byte, the last byte and every page start in between. */
    method MainMemory(offset: U32, minBytes: U32) returns (r: Option<U32>)
      requires Valid() && offset + minBytes <= M32
      ensures r.Some? <==> IoToEa(iomap[..], offset) != 0 && AllBytesMapped(iomap[..], offset, minBytes)
      ensures r.Some? ==> r.value == IoToEa(iomap[..], offset)
    {
      hide IoToEa, AllBytesMapped, ByteMapped;
      ghost var pages := iomap[..];
      var end := offset + minBytes;
      var ea := IoToEaOf(offset);
      if ea == 0 {
        return None;
      }
      if minBytes == 0 {
        NoByteNeeded(pages, offset);
        return Some(ea);
      }
      var last := IoToEaOf(end - 1);
      if last == 0 || last != ea + minBytes - 1 {
        GapFound(pages, offset, minBytes - 1, minBytes);
        return None;
      }
      var boundary := (offset + PAGE) / PAGE * PAGE;
      ghost var start := offset;   // the last byte known to be mapped with all before it
      FirstByteMapped(pages, offset);
      while boundary < end
        invariant boundary % PAGE == 0 && offset <= start < end && start < boundary <= start + PAGE
        invariant AllBytesMapped(pages, offset, start + 1 - offset)
      {
        var boundaryEa := IoToEaOf(boundary);
        if boundaryEa == 0 || boundaryEa != ea + boundary - offset {
          GapFound(pages, offset, boundary - offset, minBytes);
          return None;
        }
        PageCompleted(pages, offset, start, boundary);
        start := boundary;
        boundary := boundary + PAGE;
      }
      LastPageCompleted(pages, offset, start, end, boundary);
      return Some(ea);
    }

    method IoToEaOf(io: U32) returns (ea: U32)
      requires Valid()
      ensures ea == IoToEa(iomap[..], io)
    {
      var page := io / PAGE;
      var base := iomap[page];
      if base == UNMAPPED {
        return 0;
      }
      return (base + io % PAGE) % M32;
    }
  }

  lemma NoByteNeeded(pages: seq<U32>, offset: U32)
    requires |pages| == PAGES
    ensures AllBytesMapped(pages, offset, 0)
  {
  }

  lemma FirstByteMapped(pages: seq<U32>, offset: U32)
    requires |pages| == PAGES
    ensures AllBytesMapped(pages, offset, 1)
  {
  }

  lemma GapFound(pages: seq<U32>, offset: U32, k: nat, size: nat)
    requires |pages| == PAGES && k < size && offset + size <= M32
    requires IoToEa(pages, offset + k) != IoToEa(pages, offset) + k
    ensures !AllBytesMapped(pages, offset, size)
  {
    assert !ByteMapped(pages, offset, k);
  }

  function Min(a: U32, b: U32): U32 { if a < b then a else b }

  /** The next page start continues the mapping, so the rest of this page is mapped too. */
  lemma PageCompleted(pages: seq<U32>, offset: U32, start: U32, boundary: U32)
    requires |pages| == PAGES && IoToEa(pages, offset) != 0
    requires offset <= start < boundary <= start + PAGE && boundary % PAGE == 0
    requires AllBytesMapped(pages, offset, start + 1 - offset)
    requires IoToEa(pages, boundary) == IoToEa(pages, offset) + boundary - offset
    ensures AllBytesMapped(pages, offset, boundary + 1 - offset)
  {
    hide IoToEa;
    assert ByteMapped(pages, offset, start - offset);
    WithinPage(start, boundary);
    forall k | 0 <= k < boundary + 1 - offset ensures ByteMapped(pages, offset, k) {
      if k <= start - offset {
      } else if offset + k < boundary {
        PageBeforeBoundary(pages, start, offset + k - start, boundary - start);
      }
    }
  }

  lemma WithinPage(start: int, boundary: int)
    requires 0 <= start < boundary <= start + PAGE && boundary % PAGE == 0
    ensures start % PAGE + (boundary - start) == PAGE
  {
  }

  /** The last byte continues the mapping, so the whole interval is mapped. */
  lemma LastPageCompleted(pages: seq<U32>, offset: U32, start: U32, end: int, boundary: int)
    requires |pages| == PAGES && IoToEa(pages, offset) != 0
    requires offset <= start < end <= boundary <= start + PAGE && boundary % PAGE == 0 && end <= M32
    requires AllBytesMapped(pages, offset, start + 1 - offset)
    requires IoToEa(pages, end - 1) == IoToEa(pages, offset) + end - 1 - offset
    ensures AllBytesMapped(pages, offset, end - offset)
  {
    hide IoToEa;
    assert ByteMapped(pages, offset, start - offset);
    WithinPage(start, boundary);
    forall k | 0 <= k < end - offset ensures ByteMapped(pages, offset, k) {
      if k > start - offset {
        PageIsLinear(pages, start, offset + k - start, end - 1 - start);
      }
    }
  }
}
