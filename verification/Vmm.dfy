/** The virtual memory manager: frame bitmap and two-level page directories, changed in place. Reclaiming
    memory under pressure is not modelled: alloc_frame gives up when every frame is in use. */
module Vmm {
  import opened Wrappers
  import opened PageTables
  import opened FrameRuns

  datatype DirectoryEntry = DirectoryEntry(present: bool, writable: bool, user: bool, frame: nat)

  class PageDirectory {
    const tables: array<DirectoryEntry>
    const pageTables: array<array?<Entry>>
    ghost var rows: set<array<Entry>>
    ghost var view: Directory

    /** The directory part of create_page_directory: no table is present. */
    constructor ()
      ensures Valid() && fresh(tables) && fresh(pageTables) && rows == {}
      ensures view == seq(ENTRIES, i => None)
    {
      tables := new DirectoryEntry[ENTRIES](i => DirectoryEntry(false, true, false, 0));
      pageTables := new array?<Entry>[ENTRIES](i => null);
      rows, view := {}, seq(ENTRIES, i => None);
      new;
      forall i: nat | i < ENTRIES ensures Row(i) {
        assert view[i] == None && !tables[i].present;
      }
    }

    /** Present directory entries have page tables of their own, whose contents are the view. */
    ghost predicate Valid()
      reads this, tables, pageTables, rows
    {
      && tables.Length == ENTRIES && pageTables.Length == ENTRIES
      && (forall i {:trigger tables[i]} :: 0 <= i < ENTRIES ==> Row(i))
      && (forall i, j :: 0 <= i < j < ENTRIES && tables[i].present && tables[j].present ==> pageTables[i] != pageTables[j])
    }

    ghost predicate Row(i: nat)
      requires i < ENTRIES && tables.Length == ENTRIES && pageTables.Length == ENTRIES
      reads this, tables, pageTables, rows
    {
      if tables[i].present then
        pageTables[i] != null && pageTables[i] in rows && pageTables[i].Length == ENTRIES && view[i] == Some(pageTables[i][..])
      else view[i] == None
    }
  }

  /** The two loops of init over the bitmap. */
  method InitBitmap(bitmap: array<Word>)
    requires bitmap.Length == WORDS
    modifies bitmap
    ensures forall i :: 0 <= i < WORDS ==> bitmap[i] == if i < PHYS_MEM_START / FRAME_SIZE / 32 then AllBits() else {}
    ensures forall i :: 0 <= i < WORDS ==> IsWord(bitmap[i])
    ensures Count(bitmap[..]) == PHYS_MEM_START / FRAME_SIZE
  {
    hide AllBits, Count;
    AllBitsSize();
    var n, k := WORDS, PHYS_MEM_START / FRAME_SIZE / 32;
    for i := 0 to n
      invariant forall j :: 0 <= j < i ==> bitmap[j] == {}
    {
      bitmap[i] := {};
    }
    for i := 0 to k
      invariant forall j :: 0 <= j < n ==> bitmap[j] == if j < i then AllBits() else {}
    {
      bitmap[i] := AllBits();
    }
    CountReserved(bitmap[..], k);
  }

  class VirtualMemory {
    const frameBitmap: array<Word>
    var framesUsed: int

    ghost predicate Valid()
      reads this, frameBitmap
    {
      && frameBitmap.Length == WORDS
      && forall i :: 0 <= i < WORDS ==> IsWord(frameBitmap[i])
    }

    /** frames_used is the number of bits set. */
    ghost predicate Counted()
      reads this, frameBitmap
    {
      framesUsed == Count(frameBitmap[..])
    }

    /** The part of init that sets up the bitmap: the frames below 1 MB are in use. */
    constructor ()
      ensures Valid() && Counted() && fresh(frameBitmap) && framesUsed == PHYS_MEM_START / FRAME_SIZE
      ensures forall i :: 0 <= i < WORDS ==> frameBitmap[i] == if i < PHYS_MEM_START / FRAME_SIZE / 32 then AllBits() else {}
    {
      frameBitmap := new Word[WORDS];
      new;
      InitBitmap(frameBitmap);
      framesUsed := PHYS_MEM_START / FRAME_SIZE;
    }

    /** alloc_frame: the address of the lowest frame not in use. Address 0 also stands for failure, so
        frame 0 is lost when it is the lowest free one. */
    method AllocFrame() returns (address: nat, ghost f: nat)
      requires Valid()
      modifies this, frameBitmap
      ensures Valid() && address < MAX_FRAMES * FRAME_SIZE && (old(Counted()) ==> Counted())
      ensures NoneFree(old(frameBitmap[..])) ==> address == 0 && frameBitmap[..] == old(frameBitmap[..])
      ensures !NoneFree(old(frameBitmap[..])) ==>
        && LowestFree(old(frameBitmap[..]), f) && address == f * FRAME_SIZE
        && frameBitmap[..] == Set(old(frameBitmap[..]), f)
      ensures frameBitmap[..] == FrameTaken(old(frameBitmap[..]))
    {
      hide AllBits, Count, FrameTaken;
      ghost var words := frameBitmap[..];
      f := 0;
      for i := 0 to WORDS
        invariant frameBitmap[..] == words && framesUsed == old(framesUsed)
        invariant forall g: nat :: g < 32 * i ==> Used(words, g)
      {
        if frameBitmap[i] != AllBits() {
          var bit := 0;
          while bit < 32 && bit in frameBitmap[i]
            invariant bit <= 32 && frameBitmap[..] == words
            invariant forall b :: 0 <= b < bit ==> b in words[i]
          {
            bit := bit + 1;
          }
          WordNotFull(words[i], bit);
          f := i * 32 + bit;
          FrameAt(i, bit);
          LowestHere(words, i, bit);
          TakenIs(words, f);
          frameBitmap[i] := frameBitmap[i] + {bit};
          framesUsed := framesUsed + 1;
          SetCounts(words, f);
          address := (i * 32 + bit) * FRAME_SIZE;
          return;
        }
        WordUsed(words, i);
      }
      NothingTaken(words);
      address := 0;
    }

    /** free_frame. */
    method FreeFrame(address: nat)
      requires Valid()
      modifies this, frameBitmap
      ensures Valid() && frameBitmap[..] == Freed(old(frameBitmap[..]), address / FRAME_SIZE)
      ensures framesUsed == old(framesUsed) - if address < MAX_FRAMES * FRAME_SIZE then 1 else 0
      ensures old(Counted()) ==> (Counted() <==> address >= MAX_FRAMES * FRAME_SIZE || Used(old(frameBitmap[..]), address / FRAME_SIZE))
    {
      ghost var words := frameBitmap[..];
      var frame := address / FRAME_SIZE;
      var index, bit := frame / 32, frame % 32;
      if frame < MAX_FRAMES {
        frameBitmap[index] := frameBitmap[index] - {bit};
        framesUsed := framesUsed - 1;
        ClearCounts(words, frame);
      }
    }

    /** The part of get_page_table that installs a table of blank entries in frame f. */
    method CreateTable(pd: PageDirectory, i: nat, f: nat)
      requires i < ENTRIES && pd.Valid() && pd.view[i] == None
      modifies pd, pd.tables, pd.pageTables
      ensures pd.Valid() && pd.view == old(pd.view)[i := Some(BlankTable())]
      ensures fresh(pd.rows - old(pd.rows)) && pd.tables[..] == old(pd.tables[..])[i := DirectoryEntry(true, true, false, f)]
    {
      assert pd.Row(i);
      var blank := new Entry[ENTRIES];
      for k := 0 to ENTRIES
        invariant forall j :: 0 <= j < k ==> blank[j] == BLANK
        invariant unchanged(pd, pd.tables, pd.pageTables)
      {
        blank[k] := BLANK;
      }
      pd.pageTables[i] := blank;
      pd.tables[i] := DirectoryEntry(true, true, false, f);
      pd.rows := pd.rows + {blank};
      pd.view := pd.view[i := Some(BlankTable())];
      assert blank[..] == BlankTable();
      assert pd.Row(i);
      assert forall k :: 0 <= k < ENTRIES && k != i ==> pd.Row(k);
    }

    /** get_page_table. `kmallocOk` tells whether kmalloc finds memory for a table. A table that is missing
        is made in the lowest free frame f, unless that is not wanted or not possible. */
    method GetPageTable(pd: PageDirectory, address: bv32, create: bool, kmallocOk: bool)
      returns (table: array?<Entry>, ghost f: nat)
      requires Valid() && pd.Valid() && Apart(pd)
      modifies this, frameBitmap, pd, pd.tables, pd.pageTables
      ensures Valid() && pd.Valid() && Apart(pd) && (old(Counted()) ==> Counted())
      ensures fresh(pd.rows - old(pd.rows)) && (table != null ==> table in pd.rows)
      ensures table == null <==> old(pd.view)[PdIndex(address)] == None && (!create || Refused(old(frameBitmap[..]), kmallocOk))
      ensures table == null ==> pd.view == old(pd.view) && pd.tables[..] == old(pd.tables[..])
                                && frameBitmap[..] == (if create then Lost(old(frameBitmap[..])) else old(frameBitmap[..]))
      ensures table != null ==>
        && table == pd.pageTables[PdIndex(address)] && pd.tables[PdIndex(address)].present
        && pd.view == old(pd.view)[PdIndex(address) := Some(TableOf(old(pd.view), address))]
      ensures old(pd.view)[PdIndex(address)].Some? ==>
        pd.view == old(pd.view) && pd.tables[..] == old(pd.tables[..]) && frameBitmap[..] == old(frameBitmap[..])
      ensures table != null && old(pd.view)[PdIndex(address)] == None ==>
        && LowestFree(old(frameBitmap[..]), f) && f > 0 && frameBitmap[..] == Set(old(frameBitmap[..]), f)
        && pd.tables[..] == old(pd.tables[..])[PdIndex(address) := DirectoryEntry(true, true, false, f)]
    {
      hide Count, PdIndex, Set, Clear, NoneFree, LowestFree, Lost, Refused;
      var i := PdIndex(address);
      f := 0;
      assert pd.Row(i);
      if !pd.tables[i].present {
        if !create {
          return null, f;
        }
        var physical;
        physical, f := AllocFrame();
        RefusedIs(old(frameBitmap[..]), kmallocOk, f, physical);
        if physical == 0 {
          return null, f;
        }
        if !kmallocOk {
          pd.pageTables[i] := null;
          assert pd.view[i] == None;
          assert pd.Row(i);
          assert forall k :: 0 <= k < ENTRIES && k != i ==> pd.Row(k);
          assert pd.Valid();
          TakenThenFreed(old(frameBitmap[..]), f, physical);
          FreeFrame(physical);
          return null, f;
        }
        CreateTable(pd, i, physical / FRAME_SIZE);
      }
      table := pd.pageTables[i];
      assert pd.Row(i);
      assert pd.view[i] == Some(TableOf(old(pd.view), address));
    }

    /** The directory shares no array with the bitmap. */
    ghost predicate Apart(pd: PageDirectory)
      reads this, pd
    {
      (pd.tables as object) != frameBitmap && (pd.pageTables as object) != frameBitmap
    }

    /** The field writes of map_page. */
    method WriteEntry(pd: PageDirectory, table: array<Entry>, address: bv32, e: Entry)
      requires pd.Valid() && pd.tables[PdIndex(address)].present && table == pd.pageTables[PdIndex(address)]
      modifies pd`view, table
      ensures pd.Valid() && pd.view == Mapped(old(pd.view), address, e)
    {
      hide PdIndex, PtIndex;
      var i, k := PdIndex(address), PtIndex(address);
      assert pd.Row(i);
      assert forall j :: 0 <= j < ENTRIES && j != i && pd.tables[j].present ==> pd.pageTables[j] != table;
      table[k] := table[k].(present := e.present);
      table[k] := table[k].(writable := e.writable);
      table[k] := table[k].(user := e.user);
      table[k] := table[k].(frame := e.frame);
      pd.view := pd.view[i := Some(table[..])];
      assert table[..] == TableOf(old(pd.view), address)[k := e];
      assert pd.Row(i);
      assert forall j :: 0 <= j < ENTRIES && j != i ==> pd.Row(j);
    }

    /** map_page: 0, or -1 when a page table is needed and there is no memory for it. */
    method MapPage(pd: PageDirectory, address: bv32, physical: nat, flags: bv32, kmallocOk: bool)
      returns (status: int, ghost f: nat)
      requires Valid() && pd.Valid() && Apart(pd) && physical < MAX_FRAMES * FRAME_SIZE
      modifies this, frameBitmap, pd, pd.tables, pd.pageTables, pd.rows
      ensures Valid() && pd.Valid() && Apart(pd) && status in {0, -1} && (old(Counted()) ==> Counted())
      ensures status == -1 <==> old(pd.view)[PdIndex(address)] == None && Refused(old(frameBitmap[..]), kmallocOk)
      ensures status == 0 ==> pd.view == Mapped(old(pd.view), address, EntryFor(physical, flags))
      ensures status == -1 ==> pd.view == old(pd.view) && frameBitmap[..] == Lost(old(frameBitmap[..]))
      ensures old(pd.view)[PdIndex(address)].Some? ==> frameBitmap[..] == old(frameBitmap[..])
      ensures status == 0 && old(pd.view)[PdIndex(address)] == None ==>
        LowestFree(old(frameBitmap[..]), f) && frameBitmap[..] == Set(old(frameBitmap[..]), f)
      ensures State(frameBitmap[..], pd.view)
        == Step(State(old(frameBitmap[..]), old(pd.view)), MapCall(address, physical, flags, kmallocOk))
      ensures status == 0 ==> NowMapped(old(pd.view), pd.view, address, physical, flags)
    {
      ghost var s := State(frameBitmap[..], pd.view);
      hide Count, PdIndex, PtIndex, Set, NoneFree, LowestFree, Lost, Refused, Step, Mapped, EntryFor, NowMapped;
      MappedReads(pd.view, address, physical, flags);
      var table;
      table, f := GetPageTable(pd, address, true, kmallocOk);
      MapIs(s, MapCall(address, physical, flags, kmallocOk), f);
      if table == null {
        return -1, f;
      }
      WriteEntry(pd, table, address, EntryFor(physical, flags));
      status := 0;
    }

    /** unmap_page: the frame of a present page is freed and its translation removed. */
    method UnmapPage(pd: PageDirectory, address: bv32)
      requires Valid() && pd.Valid() && Apart(pd)
      modifies this, frameBitmap, pd, pd.tables, pd.pageTables, pd.rows
      ensures Valid() && pd.Valid() && Apart(pd)
      ensures var e := Translation(old(pd.view), address);
        && pd.view == (if e.Some? then Unmapped(old(pd.view), address) else old(pd.view))
        && frameBitmap[..] == (if e.Some? then Freed(old(frameBitmap[..]), e.value.frame) else old(frameBitmap[..]))
        && (old(Counted()) && (e.Some? ==> e.value.frame >= MAX_FRAMES || Used(old(frameBitmap[..]), e.value.frame)) ==> Counted())
      ensures State(frameBitmap[..], pd.view) == Step(State(old(frameBitmap[..]), old(pd.view)), UnmapCall(address))
    {
      hide Count, PdIndex, PtIndex, Freed;
      var i, k := PdIndex(address), PtIndex(address);
      assert pd.Row(i);
      var table, _ := GetPageTable(pd, address, false, true);
      if table == null {
        return;
      }
      assert pd.view == old(pd.view);
      if table[k].present {
        var frame := table[k].frame;
        FreeFrame(frame * FRAME_SIZE);
        assert pd.Valid() && pd.Row(i);
        assert forall j :: 0 <= j < ENTRIES && j != i && pd.tables[j].present ==> pd.pageTables[j] != table;
        table[k] := table[k].(present := false);
        pd.view := pd.view[i := Some(table[..])];
        assert table[..] == old(pd.view)[i].value[k := old(pd.view)[i].value[k].(present := false)];
        assert pd.Row(i);
        assert forall j :: 0 <= j < ENTRIES && j != i ==> pd.Row(j);
      }
    }

    /** get_physical_addr: the frame of the page and the offset of the address, or 0. */
    method GetPhysicalAddr(pd: PageDirectory, address: bv32) returns (physical: nat)
      requires Valid() && pd.Valid() && Apart(pd)
      modifies this, frameBitmap, pd, pd.tables, pd.pageTables
      ensures Valid() && pd.Valid() && Apart(pd) && pd.view == old(pd.view) && frameBitmap[..] == old(frameBitmap[..])
      ensures physical == Physical(old(pd.view), address)
    {
      hide Count, PdIndex, PtIndex, PgIndex;
      var i, k := PdIndex(address), PtIndex(address);
      assert pd.Row(i);
      var table, _ := GetPageTable(pd, address, false, true);
      if table == null {
        return 0;
      }
      assert pd.Row(i);
      if !table[k].present {
        return 0;
      }
      physical := table[k].frame * FRAME_SIZE + PgIndex(address);
    }
  }

  /** What the tables r say after map_page on d: with the present flag, every address of the page is at its
      place in the frame, with the write and user rights of the flags; without it, none is mapped. All other
      pages are as they were. */
  ghost predicate NowMapped(d: Directory, r: Directory, v: bv32, physical: nat, flags: bv32) {
    forall w {:trigger PageOf(w)} ::
      if PageOf(w) != PageOf(v) then Translation(r, w) == Translation(d, w)
      else if flags & 1 == 0 then Translation(r, w) == None
      else && Physical(r, w) == physical - physical % 4096 + PgIndex(w)
           && Translation(r, w).Some? && (Translation(r, w).value.writable <==> flags & 2 != 0)
           && (Translation(r, w).value.user <==> flags & 4 != 0)
  }

  lemma MappedReads(d: Directory, v: bv32, physical: nat, flags: bv32)
    ensures NowMapped(d, Mapped(d, v, EntryFor(physical, flags)), v, physical, flags)
  {
    hide PageOf, PgIndex, Mapped, Translation, Physical;
    var e := EntryFor(physical, flags);
    forall w: bv32 {:trigger PageOf(w)}
      ensures Translation(Mapped(d, v, e), w)
        == if PageOf(w) == PageOf(v) then (if e.present then Some(e) else None) else Translation(d, w)
      ensures e.present && PageOf(w) == PageOf(v) ==>
        Physical(Mapped(d, v, e), w) == physical - physical % 4096 + PgIndex(w)
    {
      MapRefines(d, v, e, w);
      if e.present && PageOf(w) == PageOf(v) { MapThenTranslate(d, v, w, physical, e); }
    }
  }

  /** The cases of map_page. */
  lemma MapIs(s: State, c: Call, f: nat)
    requires |s.words| == WORDS && c.MapCall?
    ensures var d := s.directory;
      && (d[PdIndex(c.v)].Some? ==> Step(s, c) == s.(directory := Mapped(d, c.v, EntryFor(c.physical, c.flags))))
      && (d[PdIndex(c.v)].None? && Refused(s.words, c.kmallocOk) ==> Step(s, c) == s.(words := Lost(s.words)))
      && (d[PdIndex(c.v)].None? && !Refused(s.words, c.kmallocOk) && LowestFree(s.words, f) ==>
            Step(s, c) == State(Set(s.words, f), Mapped(d, c.v, EntryFor(c.physical, c.flags))))
  {
    hide FrameTaken, PdIndex, Mapped, Refused, Lost, Set, LowestFree;
    if LowestFree(s.words, f) { TakenIs(s.words, f); }
  }

  lemma TakenIs(words: Bitmap, f: nat)
    requires LowestFree(words, f)
    ensures FrameTaken(words) == Set(words, f)
  {
    LowestIsFirst(words, f);
  }

  lemma NothingTaken(words: Bitmap)
    requires forall g: nat :: g < 32 * |words| ==> Used(words, g)
    ensures FrameTaken(words) == words
  {
    FirstFreeIs(words);
  }

  lemma TakenThenFreed(words: Bitmap, f: nat, address: nat)
    requires |words| == WORDS && LowestFree(words, f) && address == f * FRAME_SIZE
    ensures address / FRAME_SIZE == f && Used(Set(words, f), f) && Clear(Set(words, f), f) == words
    ensures address < MAX_FRAMES * FRAME_SIZE
  {
    SetUses(words, f, f);
    ClearUndoesSet(words, f);
  }

  lemma FrameAt(i: nat, bit: nat)
    requires bit < 32
    ensures (i * 32 + bit) / 32 == i && (i * 32 + bit) % 32 == bit
  {
  }

  lemma WordNotFull(w: Word, bit: nat)
    requires IsWord(w) && w != AllBits() && bit <= 32 && (forall b :: 0 <= b < bit ==> b in w)
    ensures bit < 32
  {
    if bit == 32 { AllBitsIff(w); }
  }

  lemma WordUsed(words: Bitmap, i: nat)
    requires i < |words| && words[i] == AllBits() && forall g: nat :: g < 32 * i ==> Used(words, g)
    ensures forall g: nat :: g < 32 * (i + 1) ==> Used(words, g)
  {
    AllBitsSize();
    hide AllBits;
    forall g: nat | 32 * i <= g < 32 * (i + 1) ensures Used(words, g) { FrameAt(i, g - 32 * i); }
  }

  lemma LowestHere(words: Bitmap, i: nat, bit: nat)
    requires i < |words| && bit < 32 && bit !in words[i] && (forall b :: 0 <= b < bit ==> b in words[i])
    requires forall g: nat :: g < 32 * i ==> Used(words, g)
    ensures LowestFree(words, i * 32 + bit)
  {
    FrameAt(i, bit);
    forall g: nat | g < i * 32 + bit ensures Used(words, g) {
      if g >= i * 32 { FrameAt(i, g - i * 32); }
    }
  }
}
