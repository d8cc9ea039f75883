/** What calls of the virtual memory manager do to the frame bitmap and a page directory, as values, and when
    frame 0, whose address stands for failure, is handed out. */
module FrameRuns {
  import opened Wrappers
  import opened PageTables

  const PG_PRESENT: bv32 := 1
  const PG_WRITE: bv32 := 2
  const PG_USER: bv32 := 4

  /** The entry that map_page writes. */
  function EntryFor(physical: nat, flags: bv32): Entry {
    Entry(flags & PG_PRESENT != 0, flags & PG_WRITE != 0, flags & PG_USER != 0, physical / FRAME_SIZE)
  }

  /** The bitmap after free_frame: an address behind the last frame is ignored. */
  function Freed(words: Bitmap, f: nat): Bitmap
    requires |words| == WORDS
  {
    if f < MAX_FRAMES then Clear(words, f) else words
  }

  /** When get_page_table gives up on making a table: no memory for it, or no frame. Frame 0 does not count,
      as its address is the sign of failure. */
  ghost predicate Refused(words: Bitmap, kmallocOk: bool)
    requires |words| == WORDS
  {
    !kmallocOk || NoneFree(words) || !Used(words, 0)
  }

  /** The bitmap after get_page_table gave up: frame 0, if it was free, stays marked. */
  function Lost(words: Bitmap): Bitmap
    requires |words| == WORDS
  {
    if Used(words, 0) then words else Set(words, 0)
  }

  /** What the address from alloc_frame tells. */
  lemma RefusedIs(words: Bitmap, kmallocOk: bool, f: nat, address: nat)
    requires |words| == WORDS
    requires if NoneFree(words) then address == 0 else LowestFree(words, f) && address == f * FRAME_SIZE
    ensures Refused(words, kmallocOk) <==> address == 0 || !kmallocOk
    ensures address == 0 ==> Lost(words) == if NoneFree(words) then words else Set(words, f)
    ensures address != 0 ==> Lost(words) == words && f > 0 && address / FRAME_SIZE == f
  {
    hide Set;
    if !NoneFree(words) && !Used(words, 0) { assert f == 0; }
  }

  // ---- the lowest free frame ----

  function FirstFree(words: Bitmap, from: nat): (f: nat)
    requires from <= 32 * |words|
    ensures from <= f <= 32 * |words| && (f < 32 * |words| ==> !Used(words, f))
    ensures forall g: nat :: from <= g < f ==> Used(words, g)
    decreases 32 * |words| - from
  {
    if from == 32 * |words| || !Used(words, from) then from else FirstFree(words, from + 1)
  }

  lemma FirstFreeIs(words: Bitmap)
    ensures var f := FirstFree(words, 0);
      if f == 32 * |words| then NoneFree(words) else LowestFree(words, f) && !NoneFree(words)
  {
    hide Used;
  }

  lemma LowestIsFirst(words: Bitmap, f: nat)
    requires LowestFree(words, f)
    ensures FirstFree(words, 0) == f && !NoneFree(words)
  {
    hide Used;
  }

  // ---- calls ----

  datatype State = State(words: Bitmap, directory: Directory)

  datatype Call =
    | MapCall(v: bv32, physical: nat, flags: bv32, kmallocOk: bool)
    | UnmapCall(v: bv32)
    | AllocCall
    | FreeCall(address: nat)

  /** The bitmap after alloc_frame. */
  function FrameTaken(words: Bitmap): (r: Bitmap)
    ensures |r| == |words|
  {
    var f := FirstFree(words, 0);
    if f == 32 * |words| then words else Set(words, f)
  }

  ghost function Step(s: State, c: Call): (r: State)
    requires |s.words| == WORDS
    ensures |r.words| == WORDS
  {
    var d := s.directory;
    match c
    case MapCall(v, physical, flags, kmallocOk) =>
      if d[PdIndex(v)].Some? then s.(directory := Mapped(d, v, EntryFor(physical, flags)))
      else if Refused(s.words, kmallocOk) then s.(words := Lost(s.words))
      else State(FrameTaken(s.words), Mapped(d, v, EntryFor(physical, flags)))
    case UnmapCall(v) =>
      var e := Translation(d, v);
      if e.Some? then State(Freed(s.words, e.value.frame), Unmapped(d, v)) else s
    case AllocCall => s.(words := FrameTaken(s.words))
    case FreeCall(address) => s.(words := Freed(s.words, address / FRAME_SIZE))
  }

  /** The call asks alloc_frame for a frame. */
  predicate AsksForFrame(s: State, c: Call) {
    c.AllocCall? || (c.MapCall? && s.directory[PdIndex(c.v)].None?)
  }

  /** The call frees frame f: it unmaps a page that is mapped to it, or frees an address in it. */
  predicate Frees(s: State, c: Call, f: nat) {
    match c
    case UnmapCall(v) => Translation(s.directory, v).Some? && Translation(s.directory, v).value.frame == f
    case FreeCall(address) => address / FRAME_SIZE == f
    case _ => false
  }

  lemma SetKeeps(words: Bitmap, f: nat, g: nat)
    requires |words| == WORDS && f < MAX_FRAMES && g < MAX_FRAMES
    ensures |Set(words, f)| == WORDS && (Used(Set(words, f), g) <==> f == g || Used(words, g))
  {
    SetUses(words, f, g);
  }

  lemma FreedKeeps(words: Bitmap, f: nat, g: nat)
    requires |words| == WORDS && g < MAX_FRAMES
    ensures |Freed(words, f)| == WORDS && (Used(Freed(words, f), g) <==> f != g && Used(words, g))
  {
    if f < MAX_FRAMES { ClearFrees(words, f, g); }
  }

  /** alloc_frame leaves frames in use as they are, and takes frame 0 if that is free. */
  lemma TakenKeeps(words: Bitmap, g: nat)
    requires |words| == WORDS && g < MAX_FRAMES
    ensures Used(words, g) ==> Used(FrameTaken(words), g)
    ensures Used(FrameTaken(words), 0)
  {
    hide Used, Set;
    var f := FirstFree(words, 0);
    if f < MAX_FRAMES {
      SetKeeps(words, f, g);
      SetKeeps(words, f, 0);
    }
  }

  /** The only calls that take a frame out of use are those that free it. */
  lemma StepFrees(s: State, c: Call, g: nat)
    requires |s.words| == WORDS && g < MAX_FRAMES && Used(s.words, g)
    ensures Used(Step(s, c).words, g) <==> !Frees(s, c, g)
  {
    hide Used, Set, FrameTaken, Freed, Refused, NoneFree, Mapped, Unmapped, Translation, PdIndex;
    TakenKeeps(s.words, g);
    match c {
      case MapCall(v, physical, flags, kmallocOk) =>
        if s.directory[PdIndex(v)].None? && Refused(s.words, kmallocOk) { LostIs(s.words, g); }
      case UnmapCall(v) =>
        var e := Translation(s.directory, v);
        if e.Some? { FreedKeeps(s.words, e.value.frame, g); }
      case AllocCall =>
      case FreeCall(address) => FreedKeeps(s.words, address / FRAME_SIZE, g);
    }
  }

  lemma LostIs(words: Bitmap, g: nat)
    requires |words| == WORDS && g < MAX_FRAMES
    ensures Used(Lost(words), 0) && (Used(words, g) ==> Used(Lost(words), g))
  {
    hide Used, Set;
    SetKeeps(words, 0, g);
    SetKeeps(words, 0, 0);
  }

  /** Frame 0, once it is free, is taken by the next call that asks for a frame, whatever comes of that. */
  lemma StepTakesZero(s: State, c: Call)
    requires |s.words| == WORDS && !Used(s.words, 0)
    ensures Used(Step(s, c).words, 0) <==> AsksForFrame(s, c)
  {
    hide Used, Set, FrameTaken, Freed, NoneFree, Mapped, Unmapped, Translation, PdIndex;
    TakenKeeps(s.words, 0);
    match c {
      case MapCall(v, physical, flags, kmallocOk) =>
        if s.directory[PdIndex(v)].None? && Refused(s.words, kmallocOk) { LostIs(s.words, 0); }
      case UnmapCall(v) =>
        var e := Translation(s.directory, v);
        if e.Some? { FreedKeeps(s.words, e.value.frame, 0); }
      case AllocCall =>
      case FreeCall(address) => FreedKeeps(s.words, address / FRAME_SIZE, 0);
    }
  }

  // ---- runs ----

  ghost function After(s: State, calls: seq<Call>): (r: State)
    requires |s.words| == WORDS
    ensures |r.words| == WORDS
  {
    if calls == [] then s else Step(After(s, calls[..|calls| - 1]), calls[|calls| - 1])
  }

  /** Some call freed frame 0, and none since then asked for a frame. */
  ghost predicate ZeroFreed(s: State, calls: seq<Call>)
    requires |s.words| == WORDS
  {
    calls != [] &&
    var before, c := calls[..|calls| - 1], calls[|calls| - 1];
    var y := After(s, before);
    Frees(y, c, 0) || (ZeroFreed(s, before) && !AsksForFrame(y, c))
  }

  /** Over every run: frame 0 is the lowest free frame, which alloc_frame would hand out as a failure, if and
      only if a call freed it and none since then asked for a frame. */
  lemma {:induction false} ZeroIsFreeIff(s: State, calls: seq<Call>)
    requires |s.words| == WORDS && Used(s.words, 0)
    ensures LowestFree(After(s, calls).words, 0) <==> ZeroFreed(s, calls)
  {
    hide Used, Step, Frees, AsksForFrame;
    if calls != [] {
      var before, c := calls[..|calls| - 1], calls[|calls| - 1];
      var y := After(s, before);
      ZeroIsFreeIff(s, before);
      if Used(y.words, 0) {
        StepFrees(y, c, 0);
      } else {
        StepTakesZero(y, c);
        FreesAsksNothing(y, c);
      }
    }
  }

  lemma FreesAsksNothing(s: State, c: Call)
    ensures Frees(s, c, 0) ==> !AsksForFrame(s, c)
  {
  }

  /** No call of a run frees frame f. */
  ghost predicate NeverFrees(s: State, calls: seq<Call>, f: nat)
    requires |s.words| == WORDS
  {
    calls == [] ||
    var before := calls[..|calls| - 1];
    NeverFrees(s, before, f) && !Frees(After(s, before), calls[|calls| - 1], f)
  }

  lemma {:induction false} StaysUsed(s: State, calls: seq<Call>, f: nat)
    requires |s.words| == WORDS && f < MAX_FRAMES && Used(s.words, f) && NeverFrees(s, calls, f)
    ensures Used(After(s, calls).words, f)
  {
    hide Used, Step, Frees;
    if calls != [] {
      var before, c := calls[..|calls| - 1], calls[|calls| - 1];
      StaysUsed(s, before, f);
      StepFrees(After(s, before), c, f);
    }
  }

  /** From the bitmap that init sets up on, in every run that frees no frame below 1 MB: alloc_frame hands out
      frames at 1 MB or above, and so fails if and only if every frame is in use. */
  lemma FramesAreAboveOneMegabyte(s: State, calls: seq<Call>)
    requires |s.words| == WORDS && forall i :: 0 <= i < PHYS_MEM_START / FRAME_SIZE / 32 ==> s.words[i] == AllBits()
    requires forall f: nat :: f < PHYS_MEM_START / FRAME_SIZE ==> NeverFrees(s, calls, f)
    ensures var words := After(s, calls).words;
      && FirstFree(words, 0) * FRAME_SIZE >= PHYS_MEM_START
      && (FirstFree(words, 0) == MAX_FRAMES <==> NoneFree(words))
  {
    hide AllBits, Used, Step, NeverFrees, After;
    var words := After(s, calls).words;
    forall f: nat | f < 256 ensures Used(words, f) {
      LowFrameUsed(s.words, f);
      StaysUsed(s, calls, f);
    }
    FirstFreeIs(words);
  }
}
