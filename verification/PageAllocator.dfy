// PageAllocator: hands out memory from whole pages, never takes it back, and returns the pages to
// the kernel at the end.

module PageAllocators {
  import opened Options

  // sizeof(PageHeader) with 64-bit pointers and sizes.
  const HEADER: nat := 16
  const SIZE_LIMIT: nat := 0x1_0000_0000_0000_0000

  // What GetNPages stores at the start of a region. A null pointer is address 0.
  datatype PageHeader = PageHeader(next: nat, num_pages: nat)

  datatype Span = Span(start: nat, size: nat)

  predicate Disjoint(a: Span, b: Span) {
    a.start + a.size <= b.start || b.start + b.size <= a.start
  }

  predicate Inside(a: Span, b: Span) {
    b.start <= a.start && a.start + a.size <= b.start + b.size
  }

  predicate Contains(a: Span, p: nat) {
    a.start <= p < a.start + a.size
  }

  ghost predicate PairwiseDisjoint(s: seq<Span>) {
    forall i, j :: 0 <= i < j < |s| ==> Disjoint(s[i], s[j])
  }

  // The bytes of a region after its header.
  function Usable(region: Span): Span
    requires region.size >= HEADER
  {
    Span(region.start + HEADER, region.size - HEADER)
  }

  // ---------------------------------------------------------------- page arithmetic

  // Where the free part of the last of the new pages begins: right after the block, unless the
  // block fills the pages to the end.
  lemma LastPage(n: nat, d: nat, k: nat)
    requires d > 0 && n > 0 && k == (n + d - 1) / d
    ensures k > 0 && n <= d * k < n + d
    ensures
      var offset := (d - (d * k - n)) % d;
      && offset < d
      && (offset == 0 ==> n == d * k)
      && (offset != 0 ==> d * (k - 1) + offset == n && d - offset == d * k - n)
  {
  }

  lemma LastPageBelow(n: nat, d: nat)
    requires d > 0
    ensures d * (n / d) <= n
  {
  }

  // ---------------------------------------------------------------- the invariant, on values

  datatype Region = Region(start: nat, span: Span, pages: nat)

  function TotalPages(regions: seq<Region>): nat {
    if regions == [] then 0 else regions[0].pages + TotalPages(regions[1..])
  }

  function StartOf(regions: seq<Region>): nat {
    if regions == [] then 0 else regions[0].start
  }

  // A region of whole pages with room for its header.
  predicate RegionOk(r: Region, pageSize: nat) {
    r.start > 0 && r.span == Span(r.start, pageSize * r.pages) && r.span.size >= HEADER
  }

  ghost predicate RegionsOk(regions: seq<Region>, pageSize: nat) {
    && (forall i :: 0 <= i < |regions| ==> RegionOk(regions[i], pageSize))
    && (forall i, j :: 0 <= i < j < |regions| ==> Disjoint(regions[i].span, regions[j].span))
  }

  // The headers in memory list the regions from the newest to the oldest.
  ghost predicate Chained(regions: seq<Region>, memory: map<nat, PageHeader>) {
    forall i :: 0 <= i < |regions| ==>
                  && regions[i].start in memory
                  && memory[regions[i].start] == PageHeader(StartOf(regions[i + 1..]), regions[i].pages)
  }

  // Every block lies in a mapped region, clear of its header.
  ghost predicate Placed(blocks: seq<Span>, regions: seq<Region>) {
    forall b :: b in blocks ==> exists r :: r in regions && r.span.size >= HEADER && Inside(b, Usable(r.span))
  }

  // The free tail of the current page: part of the newest region, past its header, in no block.
  ghost predicate TailFree(tail: Span, regions: seq<Region>, blocks: seq<Span>) {
    && regions != [] && regions[0].span.size >= HEADER && Inside(tail, Usable(regions[0].span))
    && forall b :: b in blocks ==> Disjoint(b, tail)
  }

  ghost predicate Fresh(span: Span, regions: seq<Region>) {
    span.start > 0 && forall i :: 0 <= i < |regions| ==> Disjoint(span, regions[i].span)
  }

  lemma RegionAdded(regions: seq<Region>, memory: map<nat, PageHeader>, pageSize: nat, n: Region)
    requires RegionsOk(regions, pageSize) && Chained(regions, memory)
    requires RegionOk(n, pageSize) && Fresh(n.span, regions)
    ensures RegionsOk([n] + regions, pageSize)
    ensures Chained([n] + regions, memory[n.start := PageHeader(StartOf(regions), n.pages)])
  {
  }

  // Blocks in older regions do not meet a new region.
  lemma BlocksApart(blocks: seq<Span>, regions: seq<Region>, n: Span)
    requires Placed(blocks, regions) && Fresh(n, regions)
    ensures forall b :: b in blocks ==> Disjoint(b, n)
  {
  }

  lemma BlockAdded(blocks: seq<Span>, regions: seq<Region>, b: Span)
    requires PairwiseDisjoint(blocks) && Placed(blocks, regions)
    requires forall c :: c in blocks ==> Disjoint(c, b)
    requires regions != [] && regions[0].span.size >= HEADER && Inside(b, Usable(regions[0].span))
    ensures PairwiseDisjoint(blocks + [b]) && Placed(blocks + [b], regions)
  {
  }

  // The rest of a new region, after its one block, is free.
  lemma NewTailFree(regions: seq<Region>, blocks: seq<Span>, b: Span, tail: Span)
    requires regions != [] && regions[0].span.size >= HEADER
    requires forall c :: c in blocks ==> Disjoint(c, regions[0].span)
    requires b.start == regions[0].span.start + HEADER && tail.start == b.start + b.size
    requires tail.start + tail.size == regions[0].span.start + regions[0].span.size
    ensures TailFree(tail, regions, blocks + [b])
  {
  }

  lemma PlacedStill(blocks: seq<Span>, regions: seq<Region>, n: Region)
    requires Placed(blocks, regions)
    ensures Placed(blocks, [n] + regions)
  {
  }

  class PageAllocator {
    const page_size_: nat
    var last_: nat
    var current_page_: nat
    var page_offset_: nat
    var pages_allocated_: nat
    // The headers in the mapped memory, by address.
    var memory: map<nat, PageHeader>

    ghost var regions: seq<Region>
    ghost var blocks: seq<Span>

    ghost predicate Mapped()
      reads this
    {
      && page_size_ > 0
      && last_ == StartOf(regions)
      && RegionsOk(regions, page_size_) && Chained(regions, memory)
      && pages_allocated_ == TotalPages(regions)
    }

    // Blocks are disjoint, inside mapped pages and clear of headers; the current page, if any, has
    // a free tail that no block touches.
    ghost predicate Valid()
      reads this
    {
      && Mapped()
      && PairwiseDisjoint(blocks) && Placed(blocks, regions)
      && (current_page_ == 0 ==> page_offset_ == 0)
      && (current_page_ != 0 ==> 0 < page_offset_ < page_size_ && TailFree(Tail(), regions, blocks))
    }

    function Tail(): Span
      requires page_offset_ <= page_size_
      reads this
    {
      Span(current_page_ + page_offset_, page_size_ - page_offset_)
    }

    constructor (pageSize: nat)
      requires pageSize > 0
      ensures Valid() && page_size_ == pageSize && regions == [] && blocks == []
      ensures current_page_ == 0 && pages_allocated_ == 0
    {
      page_size_ := pageSize;
      last_, current_page_, page_offset_, pages_allocated_ := 0, 0, 0, 0;
      memory := map[];
      regions, blocks := [], [];
    }

    function Pages(bytes: nat): nat
      requires page_size_ > 0
    {
      ((bytes + HEADER + page_size_ - 1) % SIZE_LIMIT) / page_size_
    }

    function BytesIn(pages: nat): nat {
      page_size_ * pages
    }

    // Where the free part of the last page begins after a block in new pages; 0 when it is full.
    function OffsetAfter(bytes: nat, pages: nat): nat
      requires page_size_ > 0 && bytes + HEADER <= BytesIn(pages) < bytes + HEADER + page_size_
    {
      (page_size_ - (page_size_ * pages - (bytes + HEADER))) % page_size_
    }

    // Adding the header and rounding up to whole pages stays within the width of size_t.
    predicate NoWrap(bytes: nat) {
      bytes + HEADER + page_size_ - 1 < SIZE_LIMIT
    }

    // The pages computed have room for the header and the block exactly when the sum does not wrap.
    lemma RoomIffNoWrap(bytes: nat)
      requires 0 < page_size_ <= SIZE_LIMIT
      ensures BytesIn(Pages(bytes)) >= bytes + HEADER <==> NoWrap(bytes)
    {
      var sum := bytes + HEADER + page_size_ - 1;
      if NoWrap(bytes) {
        NewPages(bytes);
      } else {
        assert sum % SIZE_LIMIT <= sum - SIZE_LIMIT;
        LastPageBelow(sum % SIZE_LIMIT, page_size_);
      }
    }

    // The largest request of all would get a single page.
    lemma LargestRequestGetsOnePage()
      requires page_size_ == 4096
      ensures Pages(SIZE_LIMIT - 1) == 1 && BytesIn(1) < SIZE_LIMIT - 1 + HEADER
    {
    }

    lemma NewPages(bytes: nat)
      requires page_size_ > 0 && NoWrap(bytes)
      ensures
        var pages := Pages(bytes);
        && pages > 0 && bytes + HEADER <= BytesIn(pages) < bytes + HEADER + page_size_
        && var offset := OffsetAfter(bytes, pages);
           && offset < page_size_
           && (offset == 0 ==> bytes + HEADER == BytesIn(pages))
           && (offset != 0 ==> BytesIn(pages - 1) + offset == bytes + HEADER
                               && page_size_ - offset == BytesIn(pages) - (bytes + HEADER))
    {
      LastPage(bytes + HEADER, page_size_, Pages(bytes));
    }

    // The region an allocation maps when mmap answers start.
    function NewRegion(start: nat, pages: nat): Region {
      Region(start, Span(start, BytesIn(pages)), pages)
    }

    // What mmap may answer: a failure, or memory that belongs to nobody.
    ghost predicate MayMap(mapped: Option<nat>, pages: nat)
      reads this
    {
      mapped.Some? ==> Fresh(Span(mapped.value, BytesIn(pages)), regions)
    }

    // The free tail after a block has been put at its start; none when the block fills it.
    ghost predicate TailAfter(block: Span, free: nat)
      reads this
    {
      if free == block.size then current_page_ == 0
      else
        && block.size < free && current_page_ != 0 && page_offset_ <= page_size_
        && Tail() == Span(block.start + block.size, free - block.size)
    }

    predicate FitsCurrent(bytes: nat)
      reads this
      ensures page_offset_ <= page_size_ ==> (FitsCurrent(bytes) <==> current_page_ != 0 && bytes <= Tail().size)
    {
      current_page_ != 0 && page_size_ - page_offset_ >= bytes
    }

    // mapped is what mmap returns if it is called. A request that wraps is served from the current
    // page or refused by mmap; otherwise the pages would be too few for it.
    method Alloc(bytes: nat, mapped: Option<nat>) returns (p: nat)
      requires Valid() && MayMap(mapped, Pages(bytes))
      requires NoWrap(bytes) || bytes == 0 || FitsCurrent(bytes) || mapped.None?
      modifies this
      ensures Valid()
      ensures p == 0 <==> bytes == 0 || (!old(FitsCurrent(bytes)) && mapped.None?)
      ensures blocks == if p == 0 then old(blocks) else old(blocks) + [Span(p, bytes)]
      ensures regions == if p == 0 || old(FitsCurrent(bytes)) then old(regions)
                         else [NewRegion(mapped.value, Pages(bytes))] + old(regions)
      ensures pages_allocated_ == old(pages_allocated_) + if p == 0 || old(FitsCurrent(bytes)) then 0 else Pages(bytes)
      ensures p == 0 ==> current_page_ == old(current_page_) && page_offset_ == old(page_offset_)
      ensures p != 0 && old(FitsCurrent(bytes)) ==>
                p == old(Tail()).start && TailAfter(Span(p, bytes), old(Tail()).size)
      ensures p != 0 && !old(FitsCurrent(bytes)) ==>
                p == mapped.value + HEADER && TailAfter(Span(p, bytes), BytesIn(Pages(bytes)) - HEADER)
    {
      hide Chained;
      hide RegionsOk;
      hide Placed;
      hide PairwiseDisjoint;
      hide TailFree;
      if bytes == 0 {
        return 0;
      }
      if current_page_ != 0 && page_size_ - page_offset_ >= bytes {
        p := Bump(bytes);
        return;
      }
      if mapped.None? {
        var _ := GetNPages(Pages(bytes), mapped);
        return 0;
      }
      p := StartPages(bytes, mapped.value);
    }

    // Maps the pages for a block that does not fit the current one.
    method StartPages(bytes: nat, start: nat) returns (p: nat)
      requires Valid() && bytes > 0 && NoWrap(bytes)
      requires MayMap(Some(start), Pages(bytes))
      modifies this
      ensures Valid() && p != 0
      ensures blocks == old(blocks) + [Span(p, bytes)]
      ensures regions == [NewRegion(start, Pages(bytes))] + old(regions)
      ensures pages_allocated_ == old(pages_allocated_) + Pages(bytes)
      ensures p == start + HEADER && TailAfter(Span(p, bytes), BytesIn(Pages(bytes)) - HEADER)
    {
      hide Chained;
      hide RegionsOk;
      hide Placed;
      hide PairwiseDisjoint;
      hide TailFree;
      var pages := Pages(bytes);
      NewPages(bytes);
      hide Pages;
      hide BytesIn;
      hide OffsetAfter;
      BlocksApart(blocks, regions, Span(start, BytesIn(pages)));
      PlacedStill(blocks, regions, NewRegion(start, pages));
      var ret := GetNPages(pages, Some(start));
      page_offset_ := OffsetAfter(bytes, pages);
      current_page_ := if page_offset_ != 0 then ret + BytesIn(pages - 1) else 0;
      p := ret + HEADER;
      BlockAdded(blocks, regions, Span(p, bytes));
      if page_offset_ != 0 {
        NewTailFree(regions, blocks, Span(p, bytes), Tail());
      }
      blocks := blocks + [Span(p, bytes)];
    }

    // Takes the block from the free tail of the current page.
    method Bump(bytes: nat) returns (p: nat)
      requires Valid() && bytes > 0 && FitsCurrent(bytes)
      modifies this
      ensures Valid() && p != 0 && regions == old(regions) && blocks == old(blocks) + [Span(p, bytes)]
      ensures pages_allocated_ == old(pages_allocated_)
      ensures p == old(Tail()).start && TailAfter(Span(p, bytes), old(Tail()).size)
    {
      hide Chained;
      hide RegionsOk;
      hide Placed;
      hide PairwiseDisjoint;
      p := current_page_ + page_offset_;
      BlockAdded(blocks, regions, Span(p, bytes));
      page_offset_ := page_offset_ + bytes;
      if page_offset_ == page_size_ {
        page_offset_ := 0;
        current_page_ := 0;
      }
      blocks := blocks + [Span(p, bytes)];
    }

    // Maps a region, puts its header at its start and makes it the newest.
    method GetNPages(pages: nat, mapped: Option<nat>) returns (ret: nat)
      requires Mapped() && MayMap(mapped, pages) && (mapped.Some? ==> BytesIn(pages) >= HEADER)
      modifies `last_, `memory, `pages_allocated_, `regions
      ensures Mapped()
      ensures ret == (if mapped.Some? then mapped.value else 0)
      ensures pages_allocated_ == old(pages_allocated_) + if mapped.Some? then pages else 0
      ensures regions == if mapped.Some? then [NewRegion(mapped.value, pages)] + old(regions) else old(regions)
    {
      hide Chained;
      hide RegionsOk;
      if mapped.None? {
        return 0;
      }
      ret := mapped.value;
      ghost var n := NewRegion(ret, pages);
      RegionAdded(regions, memory, page_size_, n);
      memory := memory[ret := PageHeader(last_, pages)];
      last_ := ret;
      pages_allocated_ := pages_allocated_ + pages;
      assert ([n] + regions)[1..] == regions;
      regions := [n] + regions;
    }

    // Each header in m describes its region, and each region starts elsewhere.
    lemma HeaderOf(i: nat, m: map<nat, PageHeader>)
      requires RegionsOk(regions, page_size_) && Chained(regions, m) && i < |regions|
      ensures StartOf(regions[i..]) == regions[i].start > 0 && regions[i].start in m
      ensures m[regions[i].start].next == StartOf(regions[i + 1..])
      ensures regions[i].span == Span(regions[i].start, m[regions[i].start].num_pages * page_size_)
      ensures forall j :: 0 <= j < |regions| && j != i ==> regions[j].start != regions[i].start
    {
      forall j | 0 <= j < |regions| && j != i ensures regions[j].start != regions[i].start {
        assert RegionOk(regions[i], page_size_) && RegionOk(regions[j], page_size_);
        assert if i < j then Disjoint(regions[i].span, regions[j].span)
               else Disjoint(regions[j].span, regions[i].span);
      }
    }

    // Walks the headers from the newest region on.
    method OwnsPointer(p: nat) returns (owned: bool)
      requires Valid()
      ensures owned <==> exists i :: 0 <= i < |regions| && Contains(regions[i].span, p)
    {
      hide Chained;
      hide RegionsOk;
      hide Placed;
      hide PairwiseDisjoint;
      var header := last_;
      ghost var i := 0;
      while header != 0
        invariant 0 <= i <= |regions| && header == StartOf(regions[i..])
        invariant forall j :: 0 <= j < i ==> !Contains(regions[j].span, p)
        decreases |regions| - i
      {
        HeaderOf(i, memory);
        if header <= p && p < header + memory[header].num_pages * page_size_ {
          return true;
        }
        header := memory[header].next;
        i := i + 1;
      }
      if i < |regions| {
        HeaderOf(i, memory);
      }
      return false;
    }

    // Every byte of every block is owned.
    lemma BlocksAreOwned(b: Span, p: nat)
      requires Valid() && b in blocks && Contains(b, p)
      ensures exists i :: 0 <= i < |regions| && Contains(regions[i].span, p)
    {
    }

    // The headers still mapped after the first i regions are gone.
    ghost predicate Walking(i: nat, was: map<nat, PageHeader>)
      reads this
    {
      && i <= |regions|
      && (forall j :: i <= j < |regions| ==>
                        && regions[j].start in memory && regions[j].start in was
                        && memory[regions[j].start] == was[regions[j].start])
      && (forall j :: 0 <= j < i ==> regions[j].start !in memory)
    }

    // The destructor's walk: each region is unmapped once, with the size it was mapped with. A header
    // is gone with its region, so the link to the next one is read before.
    method FreeAll() returns (unmapped: seq<Span>)
      requires Valid()
      modifies `memory
      ensures |unmapped| == |regions| && forall i :: 0 <= i < |regions| ==> unmapped[i] == regions[i].span
      ensures forall i :: 0 <= i < |regions| ==> regions[i].start !in memory
    {
      hide Chained;
      hide RegionsOk;
      hide Placed;
      hide PairwiseDisjoint;
      ghost var was := memory;
      forall i | 0 <= i < |regions| ensures regions[i].start in memory {
        HeaderOf(i, memory);
      }
      unmapped := [];
      var cur := last_;
      while cur != 0
        invariant Walking(|unmapped|, was) && cur == StartOf(regions[|unmapped|..])
        invariant forall j :: 0 <= j < |unmapped| ==> unmapped[j] == regions[j].span
        decreases |regions| - |unmapped|
      {
        ghost var i := |unmapped|;
        HeaderOf(i, was);
        var next := memory[cur].next;
        unmapped := unmapped + [Span(cur, memory[cur].num_pages * page_size_)];
        memory := memory - {cur};
        cur := next;
      }
      if |unmapped| < |regions| {
        HeaderOf(|unmapped|, was);
      }
    }
  }
}
