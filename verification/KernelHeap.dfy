/** The bump heap of memory.c and the page slots that `get_page` takes from it. */
module KernelHeap {
  import opened Prelude
  import PageTables

  const WORD := 0x1_0000_0000
  const HEAP_SIZE := 0x10_0000
  const PAGE := 4096

  // kmalloc_internal on values

  datatype Request = Request(size: nat, aligned: bool)

  /** A block handed out: its address and its size. */
  datatype Block = Block(start: nat, size: nat)

  /** The address that `kmalloc_internal` returns for a heap that ends at h. */
  function StartOf(h: nat, r: Request): nat {
    if r.aligned && h % PAGE != 0 then (h + 0x1000) % WORD / PAGE * PAGE else h
  }

  /** The end of the heap afterwards. */
  function EndOf(h: nat, r: Request): nat {
    (StartOf(h, r) + r.size) % WORD
  }

  function Blocks(h: nat, rs: seq<Request>): (bs: seq<Block>)
    ensures |bs| == |rs|
    decreases |rs|
  {
    if rs == [] then []
    else [Block(StartOf(h, rs[0]), rs[0].size)] + Blocks(EndOf(h, rs[0]), rs[1..])
  }

  /** h, rounded up to a page if the request asks for it. */
  function Aligned(h: nat, r: Request): nat {
    if r.aligned then (h + PAGE - 1) / PAGE * PAGE else h
  }

  /** The end of the heap if `uint32_t` had no limit. */
  function UnboundedEnd(h: nat, rs: seq<Request>): nat
    decreases |rs|
  {
    if rs == [] then h
    else UnboundedEnd(Aligned(h, rs[0]) + rs[0].size, rs[1..])
  }

  lemma {:induction false} UnboundedEndGrows(h: nat, rs: seq<Request>)
    ensures UnboundedEnd(h, rs) >= h
    decreases |rs|
  {
    if rs != [] {
      UnboundedEndGrows(Aligned(h, rs[0]) + rs[0].size, rs[1..]);
    }
  }

  lemma NoWrap(h: nat, r: Request)
    requires Aligned(h, r) + r.size < WORD
    ensures StartOf(h, r) == Aligned(h, r)
    ensures EndOf(h, r) == StartOf(h, r) + r.size
    ensures h <= StartOf(h, r) < h + PAGE
    ensures r.aligned ==> StartOf(h, r) % PAGE == 0
  {
  }

  /** The blocks lie between h and the end, as long as the heap does not run over 2^32. */
  lemma {:induction false} BlocksInRange(h: nat, rs: seq<Request>)
    requires UnboundedEnd(h, rs) < WORD
    ensures forall b | b in Blocks(h, rs) :: h <= b.start && b.start + b.size <= UnboundedEnd(h, rs)
    decreases |rs|
  {
    if rs != [] {
      hide Aligned, StartOf, EndOf;
      var next := Aligned(h, rs[0]) + rs[0].size;
      UnboundedEndGrows(next, rs[1..]);
      NoWrap(h, rs[0]);
      BlocksInRange(next, rs[1..]);
    }
  }

  /** Blocks are handed out in ascending order and never overlap. */
  lemma {:induction false} BlocksDisjoint(h: nat, rs: seq<Request>, i: nat, j: nat)
    requires UnboundedEnd(h, rs) < WORD && i < j < |rs|
    ensures Blocks(h, rs)[i].start + Blocks(h, rs)[i].size <= Blocks(h, rs)[j].start
    decreases |rs|
  {
    hide Aligned, StartOf, EndOf;
    var next := Aligned(h, rs[0]) + rs[0].size;
    UnboundedEndGrows(next, rs[1..]);
    NoWrap(h, rs[0]);
    if i == 0 {
      BlocksInRange(next, rs[1..]);
      assert Blocks(h, rs)[j] in Blocks(next, rs[1..]);
    } else {
      BlocksDisjoint(next, rs[1..], i - 1, j - 1);
    }
  }

  /** Aligned blocks start at multiples of 4096, less than a page behind the block
      before them; any other block starts where that one ends. */
  lemma {:induction false} BlocksAreTight(h: nat, rs: seq<Request>, i: nat)
    requires UnboundedEnd(h, rs) < WORD && i < |rs|
    ensures var bs := Blocks(h, rs);
            var before := if i == 0 then h else bs[i - 1].start + bs[i - 1].size;
            if rs[i].aligned then bs[i].start % 4096 == 0 && before <= bs[i].start < before + 4096
            else bs[i].start == before
    decreases |rs|
  {
    var next := Aligned(h, rs[0]) + rs[0].size;
    UnboundedEndGrows(next, rs[1..]);
    NoWrap(h, rs[0]);
    hide Aligned, StartOf, EndOf;
    if i > 0 {
      BlocksAreTight(next, rs[1..], i - 1);
    }
  }

  /** All blocks lie in the heap. */
  ghost predicate AllInHeap(base: nat, h: nat, rs: seq<Request>) {
    forall b | b in Blocks(h, rs) :: base <= b.start && b.start + b.size <= base + 0x10_0000
  }

  /** A block in the heap is one without wrap-around. */
  lemma InHeapNoWrap(base: nat, h: nat, r: Request)
    requires 0 < base <= h <= base + HEAP_SIZE < WORD
    requires base <= StartOf(h, r) && StartOf(h, r) + r.size <= base + HEAP_SIZE
    ensures Aligned(h, r) + r.size == StartOf(h, r) + r.size == EndOf(h, r)
  {
  }

  lemma {:induction false} InHeapFits(base: nat, h: nat, rs: seq<Request>)
    requires 0 < base <= h <= base + HEAP_SIZE < WORD && AllInHeap(base, h, rs)
    ensures UnboundedEnd(h, rs) <= base + HEAP_SIZE
    decreases |rs|
  {
    if rs != [] {
      var first := Block(StartOf(h, rs[0]), rs[0].size);
      assert Blocks(h, rs)[0] == first && first in Blocks(h, rs);
      assert forall b | b in Blocks(EndOf(h, rs[0]), rs[1..]) :: b in Blocks(h, rs);
      hide StartOf, EndOf, Aligned;
      InHeapNoWrap(base, h, rs[0]);
      InHeapFits(base, EndOf(h, rs[0]), rs[1..]);
    }
  }

  /** HEAP_SIZE is never looked at: all blocks lie in the heap exactly when the requests,
      with their padding, fit into it, also when the sizes run over 2^32. */
  lemma FitsIff(base: nat, rs: seq<Request>)
    requires 0 < base && base + HEAP_SIZE < WORD
    ensures AllInHeap(base, base, rs) <==> UnboundedEnd(base, rs) <= base + HEAP_SIZE
  {
    if UnboundedEnd(base, rs) <= base + HEAP_SIZE {
      BlocksInRange(base, rs);
    }
    if AllInHeap(base, base, rs) {
      InHeapFits(base, base, rs);
    }
  }

  /** Beyond 2^32 the heap starts over and hands out memory again. */
  lemma WrapReusesMemory()
    ensures var bs := Blocks(0x10_0000, [Request(4096, false), Request(0xFFFF_F000, false), Request(4096, false)]);
            bs[0] == bs[2] == Block(0x10_0000, 4096)
  {
    var rs := [Request(4096, false), Request(0xFFFF_F000, false), Request(4096, false)];
    assert rs[1..] == [Request(0xFFFF_F000, false), Request(4096, false)];
    assert rs[1..][1..] == [Request(4096, false)];
  }

  // get_page on values

  const TABLE := Request(4096, true)

  /** The addresses of the page tables, 0 for none, and the end of the heap. */
  datatype Paging = Paging(tables: seq<nat>, heapEnd: nat)

  function TableOf(a: Address): nat {
    a / PAGE / 1024
  }

  /** The place of the entry for an address within the table at t. */
  function SlotIn(t: nat, a: Address): nat {
    t + 4 * (a / PAGE % 1024)
  }

  /** What happens to heap and tables: a call of `get_page`, or any other request. */
  datatype Event = GetPage(address: Address, make: bool) | Allocate(request: Request)

  /** The request that an event makes of the heap. */
  function RequestOf(s: Paging, e: Event): Request
    requires |s.tables| == 1024
  {
    match e
    case GetPage(a, make) => if make && s.tables[TableOf(a)] == 0 then TABLE else Request(0, false)
    case Allocate(r) => r
  }

  function Next(s: Paging, e: Event): (s': Paging)
    requires |s.tables| == 1024
    ensures |s'.tables| == 1024
  {
    var r := RequestOf(s, e);
    Paging(if e.GetPage? && r == TABLE then s.tables[TableOf(e.address) := StartOf(s.heapEnd, r)] else s.tables,
           EndOf(s.heapEnd, r))
  }

  /** The address that `get_page` returns, 0 for NULL. */
  function SlotOf(s: Paging, a: Address, make: bool): nat
    requires |s.tables| == 1024
  {
    var t := s.tables[TableOf(a)];
    if t != 0 then SlotIn(t, a)
    else if make then SlotIn(StartOf(s.heapEnd, TABLE), a)
    else 0
  }

  /** The request of the event fits below 2^32. */
  predicate Fits(s: Paging, e: Event)
    requires |s.tables| == 1024
  {
    var r := RequestOf(s, e);
    Aligned(s.heapEnd, r) + r.size < WORD
  }

  /** Tables are page aligned, different, and below the end of the heap. */
  ghost predicate TablesInHeap(s: Paging) {
    && |s.tables| == 1024 && 0 < s.heapEnd < WORD
    && (forall i | 0 <= i < 1024 && s.tables[i] != 0 :: s.tables[i] % PAGE == 0 && s.tables[i] + PAGE <= s.heapEnd)
    && (forall i, j | 0 <= i < j < 1024 && s.tables[i] != 0 :: s.tables[i] != s.tables[j])
  }

  lemma NextKeepsTables(s: Paging, e: Event)
    requires TablesInHeap(s) && Fits(s, e)
    ensures TablesInHeap(Next(s, e)) && s.heapEnd <= Next(s, e).heapEnd
    ensures forall i | 0 <= i < 1024 && s.tables[i] != 0 :: Next(s, e).tables[i] == s.tables[i]
    ensures StartOf(s.heapEnd, RequestOf(s, e)) >= s.heapEnd
  {
    NoWrap(s.heapEnd, RequestOf(s, e));
    hide StartOf, EndOf, Aligned;
  }

  ghost predicate AllFit(s: Paging, es: seq<Event>)
    requires |s.tables| == 1024
    decreases |es|
  {
    es == [] || (Fits(s, es[0]) && AllFit(Next(s, es[0]), es[1..]))
  }

  function Run(s: Paging, es: seq<Event>): (s': Paging)
    requires |s.tables| == 1024
    ensures |s'.tables| == 1024
    decreases |es|
  {
    if es == [] then s else Run(Next(s, es[0]), es[1..])
  }

  /** Over any run that fits, tables stay where they are, apart from one another and from
      every block that is handed out later. */
  lemma {:induction false} RunKeepsTables(s: Paging, es: seq<Event>)
    requires TablesInHeap(s) && AllFit(s, es)
    ensures TablesInHeap(Run(s, es)) && s.heapEnd <= Run(s, es).heapEnd
    ensures forall i | 0 <= i < 1024 && s.tables[i] != 0 :: Run(s, es).tables[i] == s.tables[i]
    decreases |es|
  {
    if es != [] {
      NextKeepsTables(s, es[0]);
      RunKeepsTables(Next(s, es[0]), es[1..]);
    }
  }

  /** The slot of an address is the entry of its page in the table of its 4 MB, of four bytes
      each; a new table begins at the next multiple of 4096; without one there is no slot. */
  lemma SlotIs(s: Paging, a: Address, make: bool)
    requires TablesInHeap(s) && Fits(s, GetPage(a, make))
    ensures var table, slot := s.tables[a / 0x40_0000], SlotOf(s, a, make);
      && (slot == 0 <==> table == 0 && !make)
      && (slot != 0 ==> slot - 4 * (a / 4096 % 1024) == if table != 0 then table else (s.heapEnd + 4095) / 4096 * 4096)
    ensures Next(s, GetPage(a, make)).heapEnd ==
      if s.tables[a / 0x40_0000] == 0 && make then (s.heapEnd + 4095) / 4096 * 4096 + 4096 else s.heapEnd
  {
    NoWrap(s.heapEnd, RequestOf(s, GetPage(a, make)));
    hide StartOf, EndOf;
  }

  /** A slot once returned is returned again after any run, with or without make. */
  lemma SlotsAreStable(s: Paging, a: Address, es: seq<Event>, make: bool)
    requires TablesInHeap(s) && Fits(s, GetPage(a, true)) && AllFit(Next(s, GetPage(a, true)), es)
    ensures SlotOf(s, a, true) != 0
    ensures SlotOf(Run(Next(s, GetPage(a, true)), es), a, make) == SlotOf(s, a, true)
  {
    var s1 := Next(s, GetPage(a, true));
    NextKeepsTables(s, GetPage(a, true));
    assert s1.tables[TableOf(a)] != 0;
    RunKeepsTables(s1, es);
  }

  /** Different pages have different slots, four bytes apart or more, each within its
      page-aligned table below the end of the heap. */
  lemma SlotsAreDistinct(s: Paging, a: Address, b: Address)
    requires TablesInHeap(s) && s.tables[TableOf(a)] != 0 && s.tables[TableOf(b)] != 0
    requires a / PAGE != b / PAGE
    ensures var p, q := SlotOf(s, a, false), SlotOf(s, b, false);
            (p + 4 <= q || q + 4 <= p) && p + 4 <= s.heapEnd
  {
    var t, u := s.tables[TableOf(a)], s.tables[TableOf(b)];
    if TableOf(a) != TableOf(b) {
      assert t != u;
      PagesApart(t, u);
    }
  }

  /** Two slots lie in one page exactly if they are in one table. */
  lemma SlotsShareAPageIff(s: Paging, a: Address, b: Address)
    requires TablesInHeap(s) && s.tables[TableOf(a)] != 0 && s.tables[TableOf(b)] != 0
    ensures SlotOf(s, a, true) / PAGE == SlotOf(s, b, true) / PAGE <==> TableOf(a) == TableOf(b)
  {
    var t, u := s.tables[TableOf(a)], s.tables[TableOf(b)];
    SlotPage(t, a);
    SlotPage(u, b);
    if TableOf(a) != TableOf(b) {
      assert t != u;
    }
  }

  lemma SlotPage(t: nat, a: Address)
    requires t % PAGE == 0
    ensures SlotIn(t, a) / PAGE == t / PAGE && SlotIn(t, a) % PAGE == 4 * (a / PAGE % 1024)
  {
  }

  // The loop of init_paging

  /** Its first n calls of `get_page`. */
  function PageCalls(n: nat): (es: seq<Event>)
    requires n <= 1024
    ensures |es| == n && forall i | 0 <= i < n :: es[i] == GetPage(i * PAGE, true)
  {
    seq(n, i requires 0 <= i < n => GetPage(i * PAGE, true))
  }

  /** What the call for page i returns. */
  function SlotOfCall(s: Paging, i: nat): nat
    requires |s.tables| == 1024 && i < 1024
  {
    SlotOf(Run(s, PageCalls(i)), i * PAGE, true)
  }

  /** Calls for pages whose tables are there change nothing. */
  lemma {:induction false} RunStays(s: Paging, es: seq<Event>)
    requires |s.tables| == 1024 && s.heapEnd < WORD
    requires forall e | e in es :: e.GetPage? && s.tables[TableOf(e.address)] != 0
    ensures Run(s, es) == s
    decreases |es|
  {
    if es != [] {
      assert es[0] in es;
      NothingRequested(s.heapEnd);
      RunStays(s, es[1..]);
    }
  }

  /** The first call makes the table, and all calls return entries of it. */
  lemma CallsOfOneTable(s: Paging, i: nat)
    requires TablesInHeap(s) && Fits(s, GetPage(0, true)) && i < 1024
    ensures var s1 := Next(s, GetPage(0, true));
      TablesInHeap(s1) && s1.tables[0] != 0 && SlotOfCall(s, i) == SlotOf(s1, i * PAGE, true)
  {
    hide StartOf, EndOf;
    var s1 := Next(s, GetPage(0, true));
    NextKeepsTables(s, GetPage(0, true));
    if i > 0 {
      var es := PageCalls(i);
      assert es[0] == GetPage(0, true);
      forall e | e in es[1..]
        ensures e.GetPage? && TableOf(e.address) == 0
      {
        var k :| 0 <= k < i - 1 && es[1..][k] == e;
        assert es[1..][k] == es[k + 1];
      }
      RunStays(s1, es[1..]);
    }
  }

  /** So these are different entries in one page. */
  lemma CallsShareAPage(s: Paging, i: nat, j: nat)
    requires TablesInHeap(s) && Fits(s, GetPage(0, true)) && i < j < 1024
    ensures SlotOfCall(s, i) != SlotOfCall(s, j) && SlotOfCall(s, i) / PAGE == SlotOfCall(s, j) / PAGE
  {
    hide StartOf, EndOf, SlotOfCall, Next;
    CallsOfOneTable(s, i);
    CallsOfOneTable(s, j);
    var s1 := Next(s, GetPage(0, true));
    SlotsShareAPageIff(s1, i * PAGE, j * PAGE);
    SlotPage(s1.tables[0], i * PAGE);
    SlotPage(s1.tables[0], j * PAGE);
  }

  lemma PagesApart(t: nat, u: nat)
    requires t % PAGE == 0 && u % PAGE == 0 && t != u
    ensures t + PAGE <= u || u + PAGE <= t
  {
  }

  // The heap and the page tables

  /** `heap_end`. */
  class Heap {
    var heapEnd: nat

    constructor (base: nat)
      ensures heapEnd == base
    {
      heapEnd := base;
    }

    /** `kmalloc_internal`; with the page tables, if the physical address is asked for. */
    method Allocate(size: nat, aligned: bool, memory: PageTables.Memory?) returns (addr: Address, phys: Option<nat>)
      requires heapEnd < WORD
      requires memory != null ==> memory.Valid() && memory.space.Backed() && this !in memory.Repr
      modifies this
      ensures addr == StartOf(old(heapEnd), Request(size, aligned))
      ensures heapEnd == EndOf(old(heapEnd), Request(size, aligned)) < WORD
      ensures if memory == null then phys == None
              else memory.Valid() && memory.space.Backed() && phys == Some(memory.space.GetPhysaddr(addr))
    {
      if aligned && heapEnd % PAGE != 0 {
        heapEnd := (heapEnd + 0x1000) % WORD / PAGE * PAGE;
      }
      addr := heapEnd;
      phys := None;
      if memory != null {
        var physaddr := memory.GetPhysaddr(addr);
        phys := Some(physaddr);
      }
      heapEnd := (heapEnd + size) % WORD;
    }
  }

  /** `page_directory_t`. */
  class PageDirectory {
    const tables: array<Address>
    const tablesPhysical: array<PageTables.Entry>
    /** The entries of the tables, as far as there are any. */
    const contents: array<array?<PageTables.Entry>>

    constructor ()
      ensures tables.Length == tablesPhysical.Length == contents.Length == 1024
      ensures fresh(tables) && fresh(tablesPhysical) && fresh(contents)
      ensures (tables as object) != tablesPhysical
      ensures forall i | 0 <= i < 1024 :: tables[i] == 0
    {
      tables := new Address[1024](_ => 0);
      tablesPhysical := new PageTables.Entry[1024](_ => PageTables.Entry(0, 0));
      contents := new array?<PageTables.Entry>[1024](_ => null);
    }

    ghost function View(heap: Heap): Paging
      reads tables, heap
    {
      Paging(tables[..], heap.heapEnd)
    }

    /** `get_page`, with the page tables in use. */
    method GetPage(heap: Heap, address: Address, make: bool, memory: PageTables.Memory) returns (slot: nat)
      requires tables.Length == tablesPhysical.Length == contents.Length == 1024
      requires (tables as object) != tablesPhysical
      requires heap.heapEnd < WORD
      requires memory.Valid() && memory.space.Backed() && {heap, tables, tablesPhysical, contents} !! memory.Repr
      modifies tables, tablesPhysical, contents, heap
      ensures memory.Valid() && memory.space.Backed()
      ensures View(heap) == Next(old(View(heap)), Event.GetPage(address, make))
      ensures slot == SlotOf(old(View(heap)), address, make)
      ensures tablesPhysical[..] ==
        if !make || old(tables[TableOf(address)]) != 0 then old(tablesPhysical[..])
        else
          old(tablesPhysical[..])[TableOf(address) :=
            PageTables.MakeEntry(memory.space.GetPhysaddr(tables[TableOf(address)]), 7)]
      ensures forall i | 0 <= i < 1024 && i != TableOf(address) :: contents[i] == old(contents[i])
      ensures var table := contents[TableOf(address)];
        if !make || old(tables[TableOf(address)]) != 0 then table == old(contents[TableOf(address)])
        else
          table != null && fresh(table) && table.Length == 1024 && table[..] == seq(1024, _ => PageTables.Entry(0, 0))
    {
      hide StartOf, EndOf;
      var page := address / PAGE;
      var tableIdx := page / 1024;
      if make && tables[tableIdx] == 0 {
        var table, phys := heap.Allocate(4 * 1024, true, memory);
        tables[tableIdx] := table;
        tablesPhysical[tableIdx] := PageTables.MakeEntry(phys.value, 7);
        contents[tableIdx] := new PageTables.Entry[1024](_ => PageTables.Entry(0, 0));
        return tables[tableIdx] + 4 * (page % 1024);
      }
      NothingRequested(heap.heapEnd);
      return if tables[tableIdx] != 0 then tables[tableIdx] + 4 * (page % 1024) else 0;
    }
  }

  lemma NothingRequested(h: nat)
    requires h < WORD
    ensures EndOf(h, Request(0, false)) == h
  {
  }
}
