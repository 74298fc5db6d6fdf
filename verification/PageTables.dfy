/** The two-level page tables of memory_ext.c as a map from virtual to physical pages. */
module PageTables {
  import opened FrameBitmap
  import opened Prelude

  /** A 32-bit entry, split at bit 12: the number of a page and twelve flag bits. */
  datatype Entry = Entry(page: PageNumber, flags: bv12)

  predicate Present(e: Entry) {
    e.flags & 1 == 1
  }

  /** `physaddr | (flags & 0xFFF) | 1`. */
  function MakeEntry(physaddr: Address, flags: bv12): (e: Entry)
    ensures Present(e) && e.page == physaddr / PAGE_SIZE
  {
    Entry(physaddr / PAGE_SIZE, (physaddr % PAGE_SIZE) as bv12 | flags | 1)
  }

  /** What an entry says beside the page: that it is present, and the flags given, together
      with those that the offset of the physical address sets. */
  lemma EntryKeepsFlags(physaddr: Address, flags: bv12, bit: bv12)
    requires bit in {1, 2, 4, 8, 16, 32, 64, 128, 256, 512, 1024, 2048}
    ensures MakeEntry(physaddr, flags).flags & bit != 0
      <==> bit == 1 || flags & bit != 0 || (physaddr % 4096) as bv12 & bit != 0
    ensures physaddr % 4096 == 0 ==> MakeEntry(physaddr, flags).flags == flags | 1
    ensures MakeEntry(physaddr, flags).page * 4096 + physaddr % 4096 == physaddr
  {
  }

  /** virtualaddr >> 22. */
  function DirIndex(v: Address): (i: nat)
    ensures i < 1024
  {
    v / 0x40_0000
  }

  /** virtualaddr >> 12 & 0x03FF. */
  function TableIndex(v: Address): (i: nat)
    ensures i < 1024
  {
    v / 0x1000 % 0x400
  }

  function PageOf(v: Address): nat {
    v / PAGE_SIZE
  }

  lemma IndicesGivePage(v: Address)
    ensures PageOf(v) == 1024 * DirIndex(v) + TableIndex(v)
  {
  }

  /** Two addresses lie in one page exactly when they share both indices. */
  lemma SamePageIff(v: Address, w: Address)
    ensures PageOf(v) == PageOf(w) <==> DirIndex(v) == DirIndex(w) && TableIndex(v) == TableIndex(w)
  {
    IndicesGivePage(v);
    IndicesGivePage(w);
  }

  /** The page directory, and the tables by the number of the page they fill. */
  datatype Space = Space(dir: seq<Entry>, tables: map<nat, seq<Entry>>)
  {
    ghost predicate Valid() {
      |dir| == 1024 && forall t | t in tables :: |tables[t]| == 1024
    }

    /** The directory entry of v points to a table. */
    ghost predicate HasTable(v: Address)
      requires Valid()
    {
      dir[DirIndex(v)].page in tables
    }

    /** All directory entries that are present point to tables. */
    ghost predicate Backed()
      requires Valid()
    {
      forall i | 0 <= i < 1024 && Present(dir[i]) :: dir[i].page in tables
    }

    /** No two directory entries that are present share a table. */
    ghost predicate Separate()
      requires Valid()
    {
      forall i, j | 0 <= i < j < 1024 && Present(dir[i]) && Present(dir[j]) :: dir[i].page != dir[j].page
    }

    /** The entry that the tables hold for v. */
    function EntryOf(v: Address): Entry
      requires Valid() && HasTable(v)
    {
      tables[dir[DirIndex(v)].page][TableIndex(v)]
    }

    /** `get_physaddr`, with 0 for NULL. */
    function GetPhysaddr(v: Address): (p: Address)
      requires Valid() && Backed()
    {
      if !Present(dir[DirIndex(v)]) || !Present(EntryOf(v)) then 0
      else EntryOf(v).page * PAGE_SIZE + v % PAGE_SIZE
    }

    /** `map_page`. */
    function MapPage(physaddr: Address, v: Address, flags: bv12): (s: Space)
      requires Valid() && HasTable(v)
      ensures s.Valid() && s.dir == dir && s.tables.Keys == tables.Keys
    {
      var t := dir[DirIndex(v)].page;
      this.(tables := tables[t := tables[t][TableIndex(v) := MakeEntry(physaddr, flags)]])
    }

    /** Whether v and w use the very same table entry. */
    ghost predicate SameSlot(v: Address, w: Address)
      requires Valid()
    {
      dir[DirIndex(v)].page == dir[DirIndex(w)].page && TableIndex(v) == TableIndex(w)
    }

    /** What a mapping changes: the addresses that use the same table entry. */
    lemma MapThenGet(physaddr: Address, v: Address, flags: bv12, w: Address)
      requires Valid() && Backed() && HasTable(v)
      ensures MapPage(physaddr, v, flags).GetPhysaddr(w) ==
        if !SameSlot(v, w) then GetPhysaddr(w)
        else if Present(dir[DirIndex(w)]) then physaddr / PAGE_SIZE * PAGE_SIZE + w % PAGE_SIZE
        else 0
    {
    }

    /** With separate tables two addresses use the same table entry only in one page. */
    lemma SameSlotIff(v: Address, w: Address)
      requires Valid() && Separate() && Present(dir[DirIndex(v)]) && Present(dir[DirIndex(w)])
      ensures SameSlot(v, w) <==> PageOf(v) == PageOf(w)
    {
      SamePageIff(v, w);
    }
  }

  // Runs of map_page

  datatype Mapping = Mapping(physaddr: Address, virtualaddr: Address, flags: bv12)

  ghost predicate Mappable(s: Space, ms: seq<Mapping>)
    requires s.Valid()
  {
    forall m | m in ms :: Present(s.dir[DirIndex(m.virtualaddr)])
  }

  function MapAll(s: Space, ms: seq<Mapping>): (s': Space)
    requires s.Valid() && s.Backed() && Mappable(s, ms)
    ensures s'.Valid() && s'.dir == s.dir && s'.tables.Keys == s.tables.Keys
    decreases |ms|
  {
    if ms == [] then s
    else
      var s1 := MapAll(s, ms[..|ms| - 1]);
      var m := ms[|ms| - 1];
      assert m in ms;
      s1.MapPage(m.physaddr, m.virtualaddr, m.flags)
  }

  /** The physical page that a run of mappings gives to each virtual page. */
  function Latest(ms: seq<Mapping>): map<nat, nat> {
    if ms == [] then map[]
    else
      var m := ms[|ms| - 1];
      Latest(ms[..|ms| - 1])[PageOf(m.virtualaddr) := PageOf(m.physaddr)]
  }

  /** The tables refine a map: after any run of mappings, an address is translated by
      the latest mapping of its page, and as before if there was none; without a
      directory entry it stays absent. */
  lemma {:induction false} TablesRefineMap(s: Space, ms: seq<Mapping>, v: Address)
    requires s.Valid() && s.Backed() && s.Separate() && Mappable(s, ms)
    ensures MapAll(s, ms).GetPhysaddr(v) ==
      if s.dir[v / 0x40_0000].flags & 1 == 0 then 0
      else if PageOf(v) in Latest(ms) then Latest(ms)[PageOf(v)] * PAGE_SIZE + v % PAGE_SIZE else s.GetPhysaddr(v)
    decreases |ms|
  {
    if ms != [] {
      var before, m := ms[..|ms| - 1], ms[|ms| - 1];
      TablesRefineMap(s, before, v);
      var s1 := MapAll(s, before);
      assert m in ms;
      s1.MapThenGet(m.physaddr, m.virtualaddr, m.flags, v);
      if Present(s.dir[DirIndex(v)]) {
        s1.SameSlotIff(m.virtualaddr, v);
      }
    }
  }

  /** After any run NULL stands for a page that is absent, or for address 0: exactly when
      the directory entry is absent, or the latest mapping of the page is to physical page
      0 and the offset is 0, or there was none and it was NULL before. */
  lemma NullAfterRunIff(s: Space, ms: seq<Mapping>, v: Address)
    requires s.Valid() && s.Backed() && s.Separate() && Mappable(s, ms)
    ensures MapAll(s, ms).GetPhysaddr(v) == 0 <==>
      || s.dir[v / 0x40_0000].flags & 1 == 0
      || (if PageOf(v) in Latest(ms) then Latest(ms)[PageOf(v)] == 0 && v % PAGE_SIZE == 0 else s.GetPhysaddr(v) == 0)
  {
    TablesRefineMap(s, ms, v);
  }

  /** Entries may be absent: with the first 4 MB mapped by one table, as `init_paging` asks
      for, the other 1023 entries are zero, and the tables are separate. */
  lemma OneTableIsSeparate(page: PageNumber, table: seq<Entry>)
    requires |table| == 1024
    ensures var s := Space([Entry(page, 7)] + seq(1023, _ => Entry(0, 0)), map[page as nat := table]);
      && s.Valid() && s.Backed() && s.Separate()
      && forall v: Address | v < 0x40_0000 :: Present(s.dir[DirIndex(v)])
  {
    var s := Space([Entry(page, 7)] + seq(1023, _ => Entry(0, 0)), map[page as nat := table]);
    assert forall i | 1 <= i < 1024 :: s.dir[i] == Entry(0, 0);
  }

  /** If two directory entries share a table, a mapping under one moves a page of the other. */
  lemma SharedTableLeaks(s: Space, physaddr: Address, v: Address, flags: bv12, w: Address)
    requires s.Valid() && s.Backed() && Present(s.dir[DirIndex(v)]) && Present(s.dir[DirIndex(w)])
    requires PageOf(v) != PageOf(w) && s.SameSlot(v, w)
    ensures DirIndex(v) != DirIndex(w) && !s.Separate()
    ensures s.MapPage(physaddr, v, flags).GetPhysaddr(w) == PageOf(physaddr) * PAGE_SIZE + w % PAGE_SIZE
  {
    SamePageIff(v, w);
    s.MapThenGet(physaddr, v, flags, w);
  }

  /** `page_directory` and the page tables in memory. */
  class Memory {
    const directory: array<Entry>
    const tables: map<nat, array<Entry>>
    /** The abstract tables. */
    ghost var space: Space
    ghost const Repr: set<object>

    ghost predicate Valid()
      reads this, Repr
    {
      && directory in Repr && (forall t | t in tables :: tables[t] in Repr && tables[t] != directory)
      && directory.Length == 1024 && (forall t | t in tables :: tables[t].Length == 1024)
      && (forall t, u | t in tables && u in tables && t != u :: tables[t] != tables[u])
      && this !in Repr
      && space.Valid() && space.dir == directory[..] && space.tables.Keys == tables.Keys
      && (forall t | t in tables :: space.tables[t] == tables[t][..])
    }

    lemma NotInRepr()
      requires Valid()
      ensures this !in Repr && space.Valid()
    {
    }

    constructor (directory: array<Entry>, tables: map<nat, array<Entry>>)
      requires directory.Length == 1024
      requires forall t | t in tables :: tables[t].Length == 1024 && tables[t] != directory
      requires forall t, u | t in tables && u in tables && t != u :: tables[t] != tables[u]
      ensures Valid() && Repr == {directory} + set t | t in tables :: tables[t] as object
      ensures space == Space(directory[..], map t | t in tables :: tables[t][..])
    {
      this.directory := directory;
      this.tables := tables;
      Repr := {directory} + set t | t in tables :: tables[t] as object;
      space := Space(directory[..], map t | t in tables :: tables[t][..]);
    }

    method GetPhysaddr(virtualaddr: Address) returns (physaddr: Address)
      requires Valid() && space.Backed()
      ensures physaddr == space.GetPhysaddr(virtualaddr)
    {
      var pdindex := DirIndex(virtualaddr);
      var ptindex := TableIndex(virtualaddr);
      if !Present(directory[pdindex]) {
        return 0;
      }
      assert space.dir[pdindex] == directory[pdindex];
      var pt := tables[directory[pdindex].page];
      if !Present(pt[ptindex]) {
        return 0;
      }
      return pt[ptindex].page * PAGE_SIZE + virtualaddr % PAGE_SIZE;
    }

    method MapPage(physaddr: Address, virtualaddr: Address, flags: bv12)
      requires Valid() && space.HasTable(virtualaddr)
      modifies `space, Repr
      ensures Valid() && space == old(space).MapPage(physaddr, virtualaddr, flags)
    {
      var pdindex := DirIndex(virtualaddr);
      var ptindex := TableIndex(virtualaddr);
      assert space.dir[pdindex] == directory[pdindex];
      var pt := tables[directory[pdindex].page];
      pt[ptindex] := MakeEntry(physaddr, flags);
      space := space.MapPage(physaddr, virtualaddr, flags);
    }
  }
}
