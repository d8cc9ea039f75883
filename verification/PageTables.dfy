/** Two-level page tables and the frame bitmap as values. Virtual addresses are 32-bit vectors, split by
    the masks of the source; physical addresses are numbers below 2^32. */
module PageTables {
  import opened Wrappers

  const ENTRIES: nat := 1024
  const FRAME_SIZE: nat := 4096
  const MAX_FRAMES: nat := 0x100000
  const WORDS: nat := MAX_FRAMES / 32
  const PHYS_MEM_START: nat := 0x100000

  // ---- address fields ----

  function Pd(v: bv32): bv10 {
    ((v & 0xFFC0_0000) >> 22) as bv10
  }

  function Pt(v: bv32): bv10 {
    ((v & 0x003F_F000) >> 12) as bv10
  }

  function Pg(v: bv32): bv12 {
    (v & 0x0000_0FFF) as bv12
  }

  /** A table index as a number. */
  function Index(a: bv10): (i: nat)
    ensures i < ENTRIES
  {
    a as nat
  }

  function PdIndex(v: bv32): (i: nat)
    ensures i < ENTRIES
  {
    Index(Pd(v))
  }

  function PtIndex(v: bv32): (i: nat)
    ensures i < ENTRIES
  {
    Index(Pt(v))
  }

  function PgIndex(v: bv32): (i: nat)
    ensures i < FRAME_SIZE
  {
    Pg(v) as nat
  }

  function PageOf(v: bv32): bv32 {
    v >> 12
  }

  /** The three fields put together are the address: no bit is lost or shared. */
  lemma FieldsRecombine(v: bv32)
    ensures ((Pd(v) as bv32) << 22) | ((Pt(v) as bv32) << 12) | (Pg(v) as bv32) == v
    ensures ((Pd(v) as bv32) << 10) | (Pt(v) as bv32) == PageOf(v)
  {
  }

  lemma FieldsOfPage(v: bv32)
    ensures Pd(v) == (PageOf(v) >> 10) as bv10 && Pt(v) == (PageOf(v) & 0x3FF) as bv10
  {
    assert (v & 0xFFC0_0000) >> 22 == PageOf(v) >> 10;
    assert (v & 0x003F_F000) >> 12 == PageOf(v) & 0x3FF;
  }

  lemma SameIndex(a: bv10, b: bv10)
    requires Index(a) == Index(b)
    ensures a == b
  {
  }

  /** Two addresses use the same table slot exactly if they are in the same page. */
  lemma SlotIsPage(v: bv32, w: bv32)
    ensures PdIndex(v) == PdIndex(w) && PtIndex(v) == PtIndex(w) <==> PageOf(v) == PageOf(w)
  {
    hide Pd, Pt, PageOf, Index;
    if PageOf(v) == PageOf(w) {
      SamePageSameFields(v, w);
    }
    if PdIndex(v) == PdIndex(w) && PtIndex(v) == PtIndex(w) {
      SameIndex(Pd(v), Pd(w));
      SameIndex(Pt(v), Pt(w));
      SameFieldsSamePage(v, w);
    }
  }

  lemma SamePageSameFields(v: bv32, w: bv32)
    requires PageOf(v) == PageOf(w)
    ensures Pd(v) == Pd(w) && Pt(v) == Pt(w)
  {
    FieldsOfPage(v);
    FieldsOfPage(w);
  }

  lemma SameFieldsSamePage(v: bv32, w: bv32)
    requires Pd(v) == Pd(w) && Pt(v) == Pt(w)
    ensures PageOf(v) == PageOf(w)
  {
    FieldsRecombine(v);
    FieldsRecombine(w);
  }

  // ---- page tables ----

  /** A page-table entry: the bits that map_page writes. */
  datatype Entry = Entry(present: bool, writable: bool, user: bool, frame: nat)

  type Table = t: seq<Entry> | |t| == ENTRIES witness seq(ENTRIES, i => Entry(false, true, false, 0))
  type Directory = d: seq<Option<Table>> | |d| == ENTRIES witness seq(ENTRIES, i => None)

  const BLANK: Entry := Entry(false, true, false, 0)

  function BlankTable(): Table {
    seq(ENTRIES, i => BLANK)
  }

  /** get_page_table with its create flag, when there is memory. */
  function TableOf(d: Directory, v: bv32): Table {
    match d[PdIndex(v)]
    case Some(t) => t
    case None => BlankTable()
  }

  /** What the tables say about the page of an address: the flat page map. */
  function Translation(d: Directory, v: bv32): Option<Entry> {
    var e := TableOf(d, v)[PtIndex(v)];
    if e.present then Some(e) else None
  }

  /** The physical address, 0 if the page is not present. */
  function Physical(d: Directory, v: bv32): nat {
    match Translation(d, v)
    case Some(e) => e.frame * FRAME_SIZE + PgIndex(v)
    case None => 0
  }

  function Mapped(d: Directory, v: bv32, e: Entry): Directory {
    d[PdIndex(v) := Some(TableOf(d, v)[PtIndex(v) := e])]
  }

  /** map_page changes the entry of one page and of no other. */
  lemma MapRefines(d: Directory, v: bv32, e: Entry, w: bv32)
    ensures Translation(Mapped(d, v, e), w)
      == if PageOf(w) == PageOf(v) then (if e.present then Some(e) else None) else Translation(d, w)
  {
    hide PdIndex, PtIndex, PageOf;
    SlotIsPage(v, w);
  }

  function Unmapped(d: Directory, v: bv32): Directory {
    match d[PdIndex(v)]
    case None => d
    case Some(t) => d[PdIndex(v) := Some(t[PtIndex(v) := t[PtIndex(v)].(present := false)])]
  }

  /** unmap_page removes the translation of one page and of no other. */
  lemma UnmapRefines(d: Directory, v: bv32, w: bv32)
    ensures Translation(Unmapped(d, v), w) == if PageOf(w) == PageOf(v) then None else Translation(d, w)
  {
    hide PdIndex, PtIndex, PageOf;
    SlotIsPage(v, w);
  }

  /** A table of blank entries changes no translation. */
  lemma BlankIsAbsent(d: Directory, v: bv32, w: bv32)
    requires d[PdIndex(v)] == None
    ensures Translation(d[PdIndex(v) := Some(BlankTable())], w) == Translation(d, w)
  {
    hide PdIndex, PtIndex, PageOf;
  }

  /** A mapped page is found again at its frame, with the offset of the address in the page. */
  lemma MapThenTranslate(d: Directory, v: bv32, w: bv32, physical: nat, e: Entry)
    requires e.present && e.frame == physical / FRAME_SIZE && PageOf(w) == PageOf(v)
    ensures Physical(Mapped(d, v, e), w) == physical - physical % FRAME_SIZE + PgIndex(w)
  {
    hide PdIndex, PtIndex, PgIndex, PageOf;
    MapRefines(d, v, e, w);
    assert physical == physical / FRAME_SIZE * FRAME_SIZE + physical % FRAME_SIZE;
  }

  /** Mapping a page and unmapping it again leaves all other translations as they were. */
  lemma UnmapUndoesMap(d: Directory, v: bv32, e: Entry, w: bv32)
    ensures Translation(Unmapped(Mapped(d, v, e), v), w) == if PageOf(w) == PageOf(v) then None else Translation(d, w)
  {
    hide PdIndex, PtIndex, PageOf, Translation, Mapped, Unmapped;
    MapRefines(d, v, e, w);
    UnmapRefines(Mapped(d, v, e), v, w);
  }

  /** A run of map_page and unmap_page calls. */
  datatype Op = Map(v: bv32, entry: Entry) | Unmap(v: bv32)

  function Play(d: Directory, ops: seq<Op>): Directory
    decreases |ops|
  {
    if ops == [] then d
    else
      match ops[0]
      case Map(v, e) => Play(Mapped(d, v, e), ops[1..])
      case Unmap(v) => Play(Unmapped(d, v), ops[1..])
  }

  /** What a run does to one page of a flat map: only the last call for that page counts. */
  function Flat(now: Option<Entry>, ops: seq<Op>, page: bv32): Option<Entry>
    decreases |ops|
  {
    if ops == [] then now
    else
      match ops[0]
      case Map(v, e) =>
        Flat(if PageOf(v) == page then (if e.present then Some(e) else None) else now, ops[1..], page)
      case Unmap(v) => Flat(if PageOf(v) == page then None else now, ops[1..], page)
  }

  /** Two-level tables behave as a flat map from pages to entries, over every run. */
  lemma {:induction false} RunsRefineFlatMap(d: Directory, ops: seq<Op>, w: bv32)
    ensures Translation(Play(d, ops), w) == Flat(Translation(d, w), ops, PageOf(w))
    decreases |ops|
  {
    hide Translation, Mapped, Unmapped, PageOf;
    if ops != [] {
      match ops[0] {
        case Map(v, e) =>
          MapRefines(d, v, e, w);
          RunsRefineFlatMap(Mapped(d, v, e), ops[1..], w);
        case Unmap(v) =>
          UnmapRefines(d, v, w);
          RunsRefineFlatMap(Unmapped(d, v), ops[1..], w);
      }
    }
  }

  // ---- the frame bitmap ----

  function Below(n: nat): set<nat> {
    if n == 0 then {} else Below(n - 1) + {n - 1}
  }

  lemma {:induction false} BelowIs(n: nat)
    ensures |Below(n)| == n && forall b: nat :: b in Below(n) <==> b < n
  {
    if n > 0 {
      BelowIs(n - 1);
      var t := Below(n - 1);
      assert Below(n) == t + {n - 1} && n - 1 !in t;
      assert |t + {n - 1}| == |t| + 1;
    }
  }

  /** 0xFFFFFFFF. */
  function AllBits(): Word {
    Below(32)
  }

  /** A word that holds every bit is the word alloc_frame skips, and no other. */
  lemma AllBitsIff(w: Word)
    requires IsWord(w)
    ensures (forall b :: 0 <= b < 32 ==> b in w) <==> w == AllBits()
  {
    BelowIs(32);
    hide Below;
    if forall b :: 0 <= b < 32 ==> b in w { assert w == AllBits(); }
  }

  /** A 32-bit word of the bitmap: the set of its one bits. */
  type Word = set<nat>

  type Bitmap = seq<Word>

  ghost predicate IsWord(w: Word) {
    forall b :: b in w ==> b < 32
  }

  /** Frame f is in use. */
  predicate Used(words: Bitmap, f: nat)
    requires f < 32 * |words|
  {
    f % 32 in words[f / 32]
  }

  function Set(words: Bitmap, f: nat): Bitmap
    requires f < 32 * |words|
  {
    words[f / 32 := words[f / 32] + {f % 32}]
  }

  function Clear(words: Bitmap, f: nat): Bitmap
    requires f < 32 * |words|
  {
    words[f / 32 := words[f / 32] - {f % 32}]
  }

  lemma FrameIs(f: nat, g: nat)
    ensures f / 32 == g / 32 && f % 32 == g % 32 <==> f == g
  {
  }

  lemma SetUses(words: Bitmap, f: nat, g: nat)
    requires f < 32 * |words| && g < 32 * |words|
    ensures Used(Set(words, f), g) <==> f == g || Used(words, g)
  {
    FrameIs(f, g);
  }

  lemma ClearFrees(words: Bitmap, f: nat, g: nat)
    requires f < 32 * |words| && g < 32 * |words|
    ensures Used(Clear(words, f), g) <==> f != g && Used(words, g)
  {
    FrameIs(f, g);
  }

  /** Freeing the frame that was just taken restores the bitmap. */
  lemma ClearUndoesSet(words: Bitmap, f: nat)
    requires f < 32 * |words| && !Used(words, f)
    ensures Clear(Set(words, f), f) == words
  {
    var i, b := f / 32, f % 32;
    assert words[i] + {b} - {b} == words[i];
  }

  /** Frames in use. */
  function Count(words: Bitmap): nat {
    if words == [] then 0 else |words[0]| + Count(words[1..])
  }

  lemma {:induction false} CountAt(words: Bitmap, i: nat, x: Word)
    requires i < |words|
    ensures Count(words[i := x]) + |words[i]| == Count(words) + |x|
  {
    if i > 0 {
      assert words[i := x][1..] == words[1..][i - 1 := x];
      CountAt(words[1..], i - 1, x);
    } else {
      assert words[i := x][1..] == words[1..];
    }
  }

  lemma SetCounts(words: Bitmap, f: nat)
    requires f < 32 * |words|
    ensures Count(Set(words, f)) == Count(words) + if Used(words, f) then 0 else 1
  {
    var i, b := f / 32, f % 32;
    CountAt(words, i, words[i] + {b});
    if b in words[i] { assert words[i] + {b} == words[i]; }
  }

  lemma ClearCounts(words: Bitmap, f: nat)
    requires f < 32 * |words|
    ensures Count(Clear(words, f)) == Count(words) - if Used(words, f) then 1 else 0
  {
    var i, b := f / 32, f % 32;
    CountAt(words, i, words[i] - {b});
    if b !in words[i] { assert words[i] - {b} == words[i]; }
  }

  /** A bitmap whose first k words are all ones, and the rest zero. */
  lemma {:induction false} CountReserved(words: Bitmap, k: nat)
    requires k <= |words| && forall i :: 0 <= i < |words| ==> words[i] == if i < k then AllBits() else {}
    ensures Count(words) == 32 * k
  {
    hide AllBits;
    AllBitsSize();
    if words != [] { CountReserved(words[1..], if k > 0 then k - 1 else 0); }
  }

  lemma AllBitsSize()
    ensures |AllBits()| == 32 && IsWord(AllBits()) && forall b :: 0 <= b < 32 ==> b in AllBits()
  {
    BelowIs(32);
    hide Below;
  }

  /** The lowest frame that is not in use. */
  ghost predicate LowestFree(words: Bitmap, f: nat) {
    && f < 32 * |words| && !Used(words, f)
    && forall g: nat :: g < f ==> Used(words, g)
  }

  ghost predicate NoneFree(words: Bitmap) {
    forall g: nat :: g < 32 * |words| ==> Used(words, g)
  }

  lemma LowFrameUsed(words: Bitmap, f: nat)
    requires |words| >= 8 && f < 256 && forall i :: 0 <= i < 8 ==> words[i] == AllBits()
    ensures Used(words, f)
  {
    AllBitsSize();
    hide AllBits;
    assert words[f / 32] == AllBits();
  }

  /** As long as the frames below 1 MB stay in use, a frame that is handed out is not frame 0. */
  lemma LowFramesStay(words: Bitmap, f: nat)
    requires |words| >= PHYS_MEM_START / FRAME_SIZE / 32 && LowestFree(words, f)
    requires forall i :: 0 <= i < PHYS_MEM_START / FRAME_SIZE / 32 ==> words[i] == AllBits()
    ensures f * FRAME_SIZE >= PHYS_MEM_START
  {
    hide AllBits;
    if f < 256 { LowFrameUsed(words, f); }
  }
}
