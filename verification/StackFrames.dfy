/** Frames of the stack allocator as values: each frame is filled from its start, and a new frame is at
    least twice as large as the one before it. An allocation is described twice: on numbers without a bound
    (Ideal), and with the 32-bit arithmetic of the source (OnWords). */
module StackFrames {
  import opened Dyadic
  import opened Words

  const MIN_STACK_SIZE: nat := 4096
  const MAX_STACK_SIZE: nat := 1024 * 1024
  /** sizeof(struct stack_frame) on the 32-bit target. */
  const FRAME_HEADER: nat := 32
  const NULL: nat := 0

  /** What a caller was given: at least size bytes at addr. */
  datatype Region = Region(addr: nat, size: nat, alignment: nat)

  /** A frame: its struct is at addr, its memory behind it. */
  datatype Frame = Frame(addr: nat, size: nat, current: nat, regions: seq<Region>)

  function Start(f: Frame): nat {
    f.addr + FRAME_HEADER
  }

  function End(f: Frame): nat {
    Start(f) + f.size
  }

  // ---- frames ----

  /** Where region i starts at the earliest. */
  function Floor(f: Frame, i: nat): nat
    requires i <= |f.regions|
  {
    if i == 0 then Start(f) else f.regions[i - 1].addr + f.regions[i - 1].size
  }

  ghost predicate RegionOk(f: Frame, i: nat)
    requires i < |f.regions|
  {
    var r := f.regions[i];
    And(r.addr, Mask(r.alignment)) == 0 && Floor(f, i) <= r.addr
  }

  /** Live regions lie in order between the start of the frame and its current position, and the frame
      lies in the address space. */
  ghost predicate FrameOk(f: Frame) {
    && f.addr != NULL && Start(f) <= f.current <= End(f) < U32
    && (forall i {:trigger RegionOk(f, i)} :: 0 <= i < |f.regions| ==> RegionOk(f, i))
    && Floor(f, |f.regions|) <= f.current
  }

  predicate Apart(f: Frame, g: Frame) {
    End(f) <= g.addr || End(g) <= f.addr
  }

  function Capacity(frames: seq<Frame>): nat {
    if frames == [] then 0 else Capacity(frames[..|frames| - 1]) + frames[|frames| - 1].size
  }

  ghost predicate Doubles(frames: seq<Frame>, i: nat)
    requires 0 < i < |frames|
  {
    frames[i].size >= 2 * frames[i - 1].size
  }

  ghost predicate Doubling(frames: seq<Frame>) {
    && frames != [] && frames[0].size >= MIN_STACK_SIZE
    && forall i {:trigger Doubles(frames, i)} :: 0 < i < |frames| ==> Doubles(frames, i)
  }

  ghost predicate FramesOk(frames: seq<Frame>) {
    && Doubling(frames) && Capacity(frames) <= MAX_STACK_SIZE
    && (forall i {:trigger frames[i]} :: 0 <= i < |frames| ==> FrameOk(frames[i]))
    && (forall i, j :: 0 <= i < j < |frames| ==> Apart(frames[i], frames[j]))
  }

  // ---- at most eight frames ----

  lemma {:induction false} CapacityGrows(frames: seq<Frame>)
    requires Doubling(frames)
    ensures frames[|frames| - 1].size >= MIN_STACK_SIZE * Pow2(|frames| - 1)
    ensures Capacity(frames) >= MIN_STACK_SIZE * (Pow2(|frames|) - 1)
    decreases |frames|
  {
    var n := |frames|;
    Pow2Step(n - 1);
    if n > 1 {
      var rest := frames[..n - 1];
      PrefixDoubles(frames, rest);
      assert Doubles(frames, n - 1);
      CapacityGrows(rest);
      Pow2Step(n - 2);
    } else {
      assert frames[..0] == [];
    }
  }

  /** Sizes double in a list whose frames are of the same sizes, up to its length. */
  lemma PrefixDoubles(frames: seq<Frame>, rest: seq<Frame>)
    requires Doubling(frames) && 0 < |rest| <= |frames| && forall i :: 0 <= i < |rest| ==> rest[i].size == frames[i].size
    ensures Doubling(rest)
  {
    forall i: nat | 0 < i < |rest| ensures Doubles(rest, i) { assert Doubles(frames, i); }
  }

  lemma LastDoubles(frames: seq<Frame>, f: Frame)
    requires Doubling(frames) && f.size >= 2 * Last(frames).size
    ensures Doubling(frames + [f])
  {
    var t := frames + [f];
    forall i: nat | 0 < i < |t| ensures Doubles(t, i) { assert i < |frames| ==> Doubles(frames, i); }
  }

  /** Doubling from 4096 bytes within 1 MB leaves room for eight frames. */
  lemma AtMostEightFrames(frames: seq<Frame>)
    requires Doubling(frames) && Capacity(frames) <= MAX_STACK_SIZE
    ensures |frames| <= 8
  {
    CapacityGrows(frames);
    if |frames| > 8 {
      Pow2Monotone(9, |frames|);
      NinePowers();
    }
  }

  lemma NinePowers()
    ensures Pow2(9) == 512
  {
    Pow2Step(0);
    Pow2Step(1);
    Pow2Step(2);
    Pow2Step(3);
    Pow2Step(4);
    Pow2Step(5);
    Pow2Step(6);
    Pow2Step(7);
    Pow2Step(8);
  }

  // ---- live regions ----

  lemma {:induction false} FloorsGrow(f: Frame, i: nat, j: nat)
    requires FrameOk(f) && i <= j <= |f.regions|
    ensures Start(f) <= Floor(f, i) <= Floor(f, j)
    decreases j
  {
    if i < j {
      FloorsGrow(f, i, j - 1);
      assert RegionOk(f, j - 1);
    } else if i > 0 {
      FloorsGrow(f, i - 1, i - 1);
      assert RegionOk(f, i - 1);
    }
  }

  /** Every live region is aligned and inside its frame: no low bit of its alignment is set, which for a
      power of two makes it a multiple. */
  lemma RegionInFrame(f: Frame, i: nat)
    requires FrameOk(f) && i < |f.regions|
    ensures var r := f.regions[i];
      && And(r.addr, Mask(r.alignment)) == 0 && (IsPowerOfTwo(r.alignment) ==> r.addr % r.alignment == 0)
      && Start(f) <= r.addr && r.addr + r.size <= f.current <= End(f)
  {
    hide And, IsPowerOfTwo;
    if IsPowerOfTwo(f.regions[i].alignment) { LowBitsAreRemainder(f.regions[i].addr, f.regions[i].alignment); }
    FloorsGrow(f, i, i);
    FloorsGrow(f, i + 1, |f.regions|);
    assert RegionOk(f, i);
  }

  /** Two live regions, of one frame or of two, do not overlap. */
  lemma LiveRegionsApart(frames: seq<Frame>, i: nat, k: nat, j: nat, l: nat)
    requires FramesOk(frames) && i < |frames| && j < |frames| && k < |frames[i].regions| && l < |frames[j].regions|
    requires i < j || (i == j && k < l)
    ensures var a, b := frames[i].regions[k], frames[j].regions[l];
      a.addr + a.size <= b.addr || b.addr + b.size <= a.addr
  {
    RegionInFrame(frames[i], k);
    RegionInFrame(frames[j], l);
    if i == j {
      FloorsGrow(frames[i], k + 1, l);
      assert RegionOk(frames[i], l);
    } else {
      assert Apart(frames[i], frames[j]);
    }
  }

  // ---- allocation ----

  predicate Fits(f: Frame, size: nat, alignment: nat) {
    Round(f.current, alignment) + Round(size, alignment) <= End(f)
  }

  function Pushed(f: Frame, size: nat, alignment: nat): Frame {
    var p := Round(f.current, alignment);
    f.(current := p + Round(size, alignment), regions := f.regions + [Region(p, size, alignment)])
  }

  lemma PushedOk(f: Frame, size: nat, alignment: nat)
    requires FrameOk(f) && Fits(f, size, alignment)
    ensures FrameOk(Pushed(f, size, alignment))
  {
    hide And, Round, Mask;
    RoundIsClear(f.current, alignment);
    var g := Pushed(f, size, alignment);
    forall i | 0 <= i < |g.regions| ensures RegionOk(g, i) {
      if i < |f.regions| {
        assert RegionOk(f, i) && g.regions[i] == f.regions[i];
        assert Floor(g, i) == Floor(f, i);
      } else {
        assert Floor(g, i) == Floor(f, i);
      }
    }
  }

  /** The size that grow asks for. */
  function GrowSize(f: Frame, additional: nat): nat {
    if additional < f.size * 2 then f.size * 2 else additional
  }

  function NewFrame(addr: nat, size: nat): Frame {
    Frame(addr, size, Wrap(addr + FRAME_HEADER), [])
  }

  /** A frame that grow makes for a request has room for it, wherever its memory lies, if the alignment is a
      power of two. */
  lemma GrownFrameFits(addr: nat, f: Frame, size: nat, alignment: nat)
    requires size > 0 && IsPowerOfTwo(alignment) && addr + FRAME_HEADER < U32
    ensures Fits(NewFrame(addr, GrowSize(f, 2 * Round(size, alignment))), size, alignment)
  {
    hide And, IsPowerOfTwo, Round;
    RoundIs(size, alignment);
    RoundIs(addr + FRAME_HEADER, alignment);
  }

  function Last(frames: seq<Frame>): Frame
    requires frames != []
  {
    frames[|frames| - 1]
  }

  function Top(frames: seq<Frame>, f: Frame): seq<Frame>
    requires frames != []
  {
    frames[..|frames| - 1] + [f]
  }

  /** The last frame changed inside. */
  lemma TopOk(frames: seq<Frame>, f: Frame)
    requires FramesOk(frames) && FrameOk(f) && f.addr == Last(frames).addr && f.size == Last(frames).size
    ensures FramesOk(Top(frames, f)) && Capacity(Top(frames, f)) == Capacity(frames)
  {
    hide FrameOk;
    var t := Top(frames, f);
    assert t[..|t| - 1] == frames[..|frames| - 1];
    assert forall i :: 0 <= i < |t| - 1 ==> t[i] == frames[i];
    PrefixDoubles(frames, t);
    hide Doubling;
    forall i, j | 0 <= i < j < |t| ensures Apart(t[i], t[j]) { assert Apart(frames[i], frames[j]); }
  }

  /** kmalloc gave `bytes` bytes at addr, inside the address space and apart from the memory of all frames. */
  ghost predicate Fresh(frames: seq<Frame>, addr: nat, bytes: nat) {
    && addr != NULL && addr + bytes < U32
    && forall i :: 0 <= i < |frames| ==>
      frames[i].addr != addr && (End(frames[i]) <= addr || addr + bytes <= frames[i].addr)
  }

  lemma GrownOk(frames: seq<Frame>, addr: nat, size: nat)
    requires FramesOk(frames) && Fresh(frames, addr, FRAME_HEADER + size) && size >= 2 * Last(frames).size
    requires Capacity(frames) + size <= MAX_STACK_SIZE
    ensures FramesOk(frames + [NewFrame(addr, size)])
  {
    var t, f := frames + [NewFrame(addr, size)], NewFrame(addr, size);
    CapacityNext(frames, f);
    LastDoubles(frames, f);
    assert FrameOk(f);
    hide FrameOk, Capacity, Doubling;
    assert forall i :: 0 <= i < |frames| ==> t[i] == frames[i];
    assert forall i :: 0 <= i < |frames| ==> Apart(t[i], f);
  }

  lemma CapacityNext(frames: seq<Frame>, f: Frame)
    ensures Capacity(frames + [f]) == Capacity(frames) + f.size
  {
    assert (frames + [f])[..|frames|] == frames;
  }

  /** Frames without the last one. */
  lemma ShrunkOk(frames: seq<Frame>)
    requires FramesOk(frames) && |frames| > 1
    ensures FramesOk(frames[..|frames| - 1])
    ensures Capacity(frames) == Capacity(frames[..|frames| - 1]) + Last(frames).size
  {
    var t := frames[..|frames| - 1];
    assert forall i :: 0 <= i < |t| ==> t[i] == frames[i];
    PrefixDoubles(frames, t);
  }

  // ---- alloc ----

  datatype Outcome = Outcome(frames: seq<Frame>, ptr: nat)

  function Served(v: seq<Frame>, size: nat, alignment: nat): Outcome
    requires v != []
  {
    Outcome(Top(v, Pushed(Last(v), size, alignment)), Round(Last(v).current, alignment))
  }

  /** alloc on numbers without a bound; `given` is the answer of kmalloc. */
  function Ideal(v: seq<Frame>, size: nat, alignment: nat, given: nat): Outcome
    requires v != []
  {
    var grown := v + [NewFrame(given, GrowSize(Last(v), 2 * Round(size, alignment)))];
    if size == 0 then Outcome(v, NULL)
    else if Fits(Last(v), size, alignment) then Served(v, size, alignment)
    else if given == NULL || Capacity(v) + Last(grown).size > MAX_STACK_SIZE then Outcome(v, NULL)
    else if Fits(Last(grown), size, alignment) then Served(grown, size, alignment)
    else Outcome(grown, NULL)
  }

  predicate FitsWords(f: Frame, size: nat, alignment: nat)
    requires alignment < U32
  {
    Wrap(AlignUp(f.current, alignment) + AlignUp(size, alignment)) <= Wrap(End(f))
  }

  function PushedWords(f: Frame, size: nat, alignment: nat): Frame
    requires alignment < U32
  {
    var p := AlignUp(f.current, alignment);
    f.(current := Wrap(p + AlignUp(size, alignment)), regions := f.regions + [Region(p, size, alignment)])
  }

  function ServedWords(v: seq<Frame>, size: nat, alignment: nat): Outcome
    requires v != [] && alignment < U32
  {
    Outcome(Top(v, PushedWords(Last(v), size, alignment)), AlignUp(Last(v).current, alignment))
  }

  function GrowSizeWords(f: Frame, additional: nat): nat {
    if additional < Wrap(f.size * 2) then Wrap(f.size * 2) else additional
  }

  /** What grow's check of the capacity says. */
  predicate MayGrow(v: seq<Frame>, newSize: nat) {
    Wrap(Wrap(Capacity(v)) + newSize) <= MAX_STACK_SIZE
  }

  /** The size of the frame that alloc asks grow for. */
  function Wanted(v: seq<Frame>, size: nat, alignment: nat): nat
    requires v != [] && alignment < U32
  {
    GrowSizeWords(Last(v), Wrap(AlignUp(size, alignment) * 2))
  }

  /** alloc with the sums, products and masks of the source on 32 bits. */
  function OnWords(v: seq<Frame>, size: nat, alignment: nat, given: nat): Outcome
    requires v != [] && alignment < U32
  {
    var grown := v + [NewFrame(given, Wanted(v, size, alignment))];
    if size == 0 then Outcome(v, NULL)
    else if FitsWords(Last(v), size, alignment) then ServedWords(v, size, alignment)
    else if given == NULL || !MayGrow(v, Wanted(v, size, alignment)) then Outcome(v, NULL)
    else if FitsWords(Last(grown), size, alignment) then ServedWords(grown, size, alignment)
    else Outcome(grown, NULL)
  }

  /** One of the three checks that alloc makes passes on 32 bits, although the request does not fit, or the
      capacity is exceeded. */
  predicate Misled(v: seq<Frame>, size: nat, alignment: nat, given: nat)
    requires v != [] && alignment < U32
  {
    var ideal := GrowSize(Last(v), 2 * Round(size, alignment));
    && size > 0 && !Fits(Last(v), size, alignment)
    && (|| FitsWords(Last(v), size, alignment)
        || (given != NULL && MayGrow(v, Wanted(v, size, alignment))
            && (|| Capacity(v) + ideal > MAX_STACK_SIZE
                || (FitsWords(NewFrame(given, ideal), size, alignment)
                    && !Fits(NewFrame(given, ideal), size, alignment)))))
  }

  /** Where a request fits, 32 bits are enough. */
  lemma FitsOnWords(f: Frame, size: nat, alignment: nat)
    requires f.current < U32 && End(f) < U32 && size < U32 && alignment < U32 && Fits(f, size, alignment)
    ensures FitsWords(f, size, alignment) && PushedWords(f, size, alignment) == Pushed(f, size, alignment)
    ensures AlignUp(f.current, alignment) == Round(f.current, alignment)
  {
    hide AlignUp, Round;
    MaskIsRounding(f.current, alignment);
    MaskIsRounding(size, alignment);
  }

  /** Where the capacity allows to grow, 32 bits are enough. */
  lemma GrowsOnWords(v: seq<Frame>, size: nat, alignment: nat)
    requires FramesOk(v) && size < U32 && alignment < U32
    requires Capacity(v) + GrowSize(Last(v), 2 * Round(size, alignment)) <= MAX_STACK_SIZE
    ensures Wanted(v, size, alignment) == GrowSize(Last(v), 2 * Round(size, alignment))
    ensures MayGrow(v, Wanted(v, size, alignment))
  {
    hide AlignUp, Round, FramesOk;
    MaskIsRounding(size, alignment);
  }

  /** The source allocates as on numbers without a bound exactly if none of its checks is misled by the
      wrap: for all sizes and alignments, and wherever the memory of the frames lies. */
  lemma AllocIsIdealIff(v: seq<Frame>, size: nat, alignment: nat, given: nat)
    requires FramesOk(v) && size < U32 && alignment < U32
    requires given != NULL ==> Fresh(v, given, Wrap(FRAME_HEADER + Wanted(v, size, alignment)))
    ensures OnWords(v, size, alignment, given) == Ideal(v, size, alignment, given)
      <==> !Misled(v, size, alignment, given)
  {
    hide AlignUp, Round, Capacity, Wanted, MayGrow, Fits, FitsWords, PushedWords, Pushed;
    assert FrameOk(Last(v));
    var ideal := GrowSize(Last(v), 2 * Round(size, alignment));
    if size > 0 {
      if Fits(Last(v), size, alignment) {
        FitsOnWords(Last(v), size, alignment);
      } else if FitsWords(Last(v), size, alignment) {
        PushedDiffers(v, size, alignment);
      } else if given != NULL && Capacity(v) + ideal <= MAX_STACK_SIZE {
        GrowsOnWords(v, size, alignment);
        GrownOutcome(v, size, alignment, given, ideal);
      }
    }
  }

  lemma PushedDiffers(v: seq<Frame>, size: nat, alignment: nat)
    requires v != [] && alignment < U32
    ensures |ServedWords(v, size, alignment).frames| == |v|
    ensures |Last(ServedWords(v, size, alignment).frames).regions| == |Last(v).regions| + 1
  {
  }

  lemma GrownOutcome(v: seq<Frame>, size: nat, alignment: nat, given: nat, newSize: nat)
    requires v != [] && size < U32 && alignment < U32
    requires Fresh(v, given, Wrap(FRAME_HEADER + newSize)) && newSize <= MAX_STACK_SIZE
    ensures var w := v + [NewFrame(given, newSize)];
      && (Fits(Last(w), size, alignment) ==>
          FitsWords(Last(w), size, alignment) && ServedWords(w, size, alignment) == Served(w, size, alignment))
      && ServedWords(w, size, alignment) != Outcome(w, NULL)
  {
    hide AlignUp, Round, Fits, FitsWords;
    var w := v + [NewFrame(given, newSize)];
    PushedDiffers(w, size, alignment);
    if Fits(Last(w), size, alignment) { FitsOnWords(Last(w), size, alignment); }
  }

  /** Allocation on unbounded numbers keeps all live regions in bounds, aligned and apart. */
  lemma IdealKeeps(v: seq<Frame>, size: nat, alignment: nat, given: nat)
    requires FramesOk(v)
    requires var ideal := GrowSize(Last(v), 2 * Round(size, alignment));
      given != NULL && Capacity(v) + ideal <= MAX_STACK_SIZE ==> Fresh(v, given, FRAME_HEADER + ideal)
    ensures FramesOk(Ideal(v, size, alignment, given).frames)
  {
    hide Round, Capacity, Fits, Pushed, FrameOk, FramesOk;
    LastOk(v);
    var ideal := GrowSize(Last(v), 2 * Round(size, alignment));
    if size > 0 {
      if Fits(Last(v), size, alignment) {
        PushOk(v, size, alignment);
      } else if given != NULL && Capacity(v) + ideal <= MAX_STACK_SIZE {
        GrownOk(v, given, ideal);
        var w := v + [NewFrame(given, ideal)];
        LastOk(w);
        if Fits(Last(w), size, alignment) { PushOk(w, size, alignment); }
      }
    }
  }

  /** What an allocation that gives ptr does to the frames v, whose last one is filled up to `current`: ptr is
      the next multiple of a at or behind `current`, the bytes behind it are the next multiple of a from `size`
      on, and nothing else changes; a new frame is used only if the last one has no place for them, and is
      twice as large as that one or as the bytes. */
  ghost predicate NextPlace(v: seq<Frame>, size: nat, a: nat, given: nat, w: seq<Frame>, ptr: nat)
    requires v != [] && a > 0
  {
    var f, n := v[|v| - 1], |v|;
    && |w| >= n && ptr <= w[|w| - 1].current
    && var g, bytes := w[|w| - 1], w[|w| - 1].current - ptr;
    && IsMultiple(ptr, a) && IsMultiple(bytes, a) && size <= bytes < size + a
    && g.current <= g.addr + 32 + g.size
    && if |w| == n then
         && w[..n - 1] == v[..n - 1] && f.current <= ptr < f.current + a
         && g == f.(current := g.current, regions := f.regions + [Region(ptr, size, a)])
       else
         && |w| == n + 1 && w[..n] == v && g.addr == given && given + 32 <= ptr < given + 32 + a
         && g.regions == [Region(ptr, size, a)]
         && 2 * f.size <= g.size && 2 * bytes <= g.size && (g.size == 2 * f.size || g.size == 2 * bytes)
         && forall p {:trigger IsMultiple(p, a)} :: f.current <= p && IsMultiple(p, a) ==> p + bytes > f.addr + 32 + f.size
  }

  lemma IdealIsNextPlace(v: seq<Frame>, size: nat, a: nat, given: nat)
    requires FramesOk(v) && IsPowerOfTwo(a) && a > 0 && size < U32 && a < U32
    requires given != NULL ==> Fresh(v, given, Wrap(FRAME_HEADER + Wanted(v, size, a)))
    ensures var o := Ideal(v, size, a, given); o.ptr != NULL ==> NextPlace(v, size, a, given, o.frames, o.ptr)
  {
    hide NextPlace, Round, IsPowerOfTwo, FramesOk, Capacity, Wanted, Fits, Served, Fresh;
    LastOk(v);
    var grown := GrowSize(Last(v), 2 * Round(size, a));
    if Fits(Last(v), size, a) {
      NextInLast(v, size, a, given);
    } else if given != NULL && Capacity(v) + grown <= MAX_STACK_SIZE {
      FreshIdeal(v, size, a, given);
      FreshStart(v, given, FRAME_HEADER + grown);
      if Fits(NewFrame(given, grown), size, a) { NextInNew(v, size, a, given); }
    }
  }

  lemma FreshStart(v: seq<Frame>, given: nat, bytes: nat)
    requires Fresh(v, given, bytes)
    ensures given + bytes < U32
  {
  }

  lemma NextInLast(v: seq<Frame>, size: nat, a: nat, given: nat)
    requires v != [] && IsPowerOfTwo(a) && a > 0 && Fits(Last(v), size, a)
    ensures var o := Served(v, size, a); NextPlace(v, size, a, given, o.frames, o.ptr)
  {
    hide Round, IsPowerOfTwo, IsMultiple;
    RoundIs(Last(v).current, a);
    RoundIs(size, a);
    var o, g := Served(v, size, a), Pushed(Last(v), size, a);
    assert o.frames[|v| - 1] == g && g.current - o.ptr == Round(size, a);
  }

  lemma NextInNew(v: seq<Frame>, size: nat, a: nat, given: nat)
    requires v != [] && IsPowerOfTwo(a) && a > 0 && !Fits(Last(v), size, a)
    requires var f := NewFrame(given, GrowSize(Last(v), 2 * Round(size, a))); End(f) < U32 && Fits(f, size, a)
    ensures var o := Served(v + [NewFrame(given, GrowSize(Last(v), 2 * Round(size, a)))], size, a);
      NextPlace(v, size, a, given, o.frames, o.ptr)
  {
    hide Round, IsPowerOfTwo, IsMultiple;
    RoundIs(given + FRAME_HEADER, a);
    RoundIs(size, a);
    NothingFits(Last(v), size, a);
    var f := NewFrame(given, GrowSize(Last(v), 2 * Round(size, a)));
    var o, g := Served(v + [f], size, a), Pushed(f, size, a);
    assert o.frames == v + [g] && g.current - o.ptr == Round(size, a);
    assert [] + [Region(o.ptr, size, a)] == [Region(o.ptr, size, a)];
  }

  lemma FreshIdeal(v: seq<Frame>, size: nat, alignment: nat, given: nat)
    requires FramesOk(v) && size < U32 && alignment < U32
    requires given != NULL ==> Fresh(v, given, Wrap(FRAME_HEADER + Wanted(v, size, alignment)))
    ensures var ideal := GrowSize(Last(v), 2 * Round(size, alignment));
      given != NULL && Capacity(v) + ideal <= MAX_STACK_SIZE ==> Fresh(v, given, FRAME_HEADER + ideal)
  {
    LastOk(v);
    hide AlignUp, Round, FramesOk, Wanted, Capacity;
    if Capacity(v) + GrowSize(Last(v), 2 * Round(size, alignment)) <= MAX_STACK_SIZE { GrowsOnWords(v, size, alignment); }
  }

  /** If the next multiple leaves no room, none does. */
  lemma NothingFits(f: Frame, size: nat, a: nat)
    requires IsPowerOfTwo(a) && a > 0
    ensures !Fits(f, size, a) ==>
      forall p {:trigger IsMultiple(p, a)} :: f.current <= p && IsMultiple(p, a) ==> p + Round(size, a) > End(f)
  {
    RoundIs(f.current, a);
    hide Round, IsPowerOfTwo;
    forall p {:trigger IsMultiple(p, a)} | f.current <= p && IsMultiple(p, a) ensures Round(f.current, a) <= p {
      NextIsLeast(f.current, a, Round(f.current, a), p);
    }
  }

  /** Between two multiples of a there are at least a numbers. */
  lemma NextIsLeast(x: nat, a: nat, r: nat, p: nat)
    requires a > 0 && IsMultiple(r, a) && x <= r < x + a && IsMultiple(p, a) && x <= p
    ensures r <= p
  {
    var q, k := p / a, r / a;
    assert p == q * a && r == k * a;
    if q < k { MulMonotone(q + 1, k, a); } else { MulMonotone(k, q, a); }
    assert (q + 1) * a == q * a + a;
  }

  lemma PushOk(v: seq<Frame>, size: nat, alignment: nat)
    requires FramesOk(v) && Fits(Last(v), size, alignment)
    ensures FramesOk(Served(v, size, alignment).frames)
  {
    hide FrameOk, FramesOk, Fits;
    LastOk(v);
    PushedOk(Last(v), size, alignment);
    TopOk(v, Pushed(Last(v), size, alignment));
  }

  lemma LastOk(v: seq<Frame>)
    requires FramesOk(v)
    ensures v != [] && FrameOk(Last(v)) && Start(Last(v)) <= Last(v).current <= End(Last(v)) < U32
    ensures Last(v).addr != NULL && v[0].addr != NULL
  {
    assert FrameOk(v[|v| - 1]) && FrameOk(v[0]);
  }

  /** Requests of up to 1 MB with alignments of up to 1 MB are never misled, unless a frame lies in the last
      3 MB of the address space. */
  lemma SmallRequestsAreIdeal(v: seq<Frame>, size: nat, alignment: nat, given: nat)
    requires FramesOk(v) && size <= MAX_STACK_SIZE && 0 < alignment <= MAX_STACK_SIZE
    requires End(Last(v)) + 3 * MAX_STACK_SIZE <= U32 && given + 5 * MAX_STACK_SIZE <= U32
    ensures !Misled(v, size, alignment, given)
  {
    hide AlignUp, Round, FramesOk, Capacity;
    LastOk(v);
    CapacityHolds(v);
    var ideal := GrowSize(Last(v), 2 * Round(size, alignment));
    RoundBelow(size, alignment);
    SmallFits(Last(v), size, alignment);
    MaskIsRounding(size, alignment);
    if Capacity(v) + ideal <= MAX_STACK_SIZE { SmallFits(NewFrame(given, ideal), size, alignment); }
  }

  lemma CapacityHolds(v: seq<Frame>)
    requires FramesOk(v)
    ensures Last(v).size <= Capacity(v) <= MAX_STACK_SIZE
  {
  }

  lemma SmallFits(f: Frame, size: nat, alignment: nat)
    requires size <= MAX_STACK_SIZE && 0 < alignment <= MAX_STACK_SIZE
    requires f.current <= End(f) && End(f) + 3 * MAX_STACK_SIZE <= U32
    ensures FitsWords(f, size, alignment) <==> Fits(f, size, alignment)
  {
    hide AlignUp, Round;
    MaskIsRounding(f.current, alignment);
    MaskIsRounding(size, alignment);
    RoundBelow(f.current, alignment);
    RoundBelow(size, alignment);
  }

  // ---- where the checks are misled ----

  /** The first check passes although the request does not fit: the rounded size wraps, and the rounded position
      is inside the frame or wraps too; or the position wraps, and the size ends inside the frame; or the sum of
      the two wraps, which always ends inside the frame. */
  predicate FirstSlips(f: Frame, size: nat, alignment: nat) {
    var position, bytes := Round(f.current, alignment), Round(size, alignment);
    if bytes == U32 then position <= End(f) || position == U32
    else if position == U32 then bytes <= End(f)
    else position + bytes >= U32
  }

  /** grow's check of the capacity passes for a frame that exceeds it: the doubled size, or its sum with the
      capacity, wraps to something small. */
  predicate GrowSlips(v: seq<Frame>, size: nat, alignment: nat)
    requires v != []
  {
    var doubled, least := 2 * Round(size, alignment), 2 * Last(v).size;
    if doubled < U32 then Capacity(v) + doubled >= U32
    else if doubled == 2 * U32 then Capacity(v) + least <= MAX_STACK_SIZE
    else Capacity(v) + (if doubled - U32 < least then least else doubled - U32) <= MAX_STACK_SIZE
         || Capacity(v) + doubled >= 2 * U32
  }

  lemma FirstCheck(f: Frame, size: nat, alignment: nat)
    requires f.current <= End(f) < U32 && size < U32 && alignment < U32 && IsPowerOfTwo(alignment)
    ensures FitsWords(f, size, alignment) && !Fits(f, size, alignment) <==> FirstSlips(f, size, alignment)
  {
    hide AlignUp, Round, IsPowerOfTwo;
    RoundOnWords(f.current, alignment);
    RoundOnWords(size, alignment);
  }

  lemma GrowCheck(v: seq<Frame>, size: nat, alignment: nat)
    requires FramesOk(v) && size < U32 && alignment < U32 && IsPowerOfTwo(alignment)
    ensures MayGrow(v, Wanted(v, size, alignment))
            && Capacity(v) + GrowSize(Last(v), 2 * Round(size, alignment)) > MAX_STACK_SIZE
      <==> GrowSlips(v, size, alignment)
  {
    CapacityHolds(v);
    hide AlignUp, Round, IsPowerOfTwo, FramesOk, Capacity, Wrap;
    RoundOnWords(size, alignment);
    WrapOnce(AlignUp(size, alignment) * 2);
    WrapOnce(Last(v).size * 2);
    WrapOnce(Capacity(v));
    WrapOnce(Capacity(v) + Wanted(v, size, alignment));
  }

  /** For powers of two, in closed form: an allocation is misled exactly if its first check slips, or the
      request does not fit, there is memory, and the check of the capacity slips. The second check of the
      position, in the new frame, never does. */
  lemma MisledIff(v: seq<Frame>, size: nat, alignment: nat, given: nat)
    requires FramesOk(v) && size < U32 && alignment < U32 && IsPowerOfTwo(alignment)
    requires given != NULL ==> Fresh(v, given, Wrap(FRAME_HEADER + Wanted(v, size, alignment)))
    ensures Misled(v, size, alignment, given) <==>
      (size > 0 && (|| FirstSlips(Last(v), size, alignment)
                    || (!Fits(Last(v), size, alignment) && given != NULL && GrowSlips(v, size, alignment))))
  {
    LastOk(v);
    FirstCheck(Last(v), size, alignment);
    GrowCheck(v, size, alignment);
    var ideal := GrowSize(Last(v), 2 * Round(size, alignment));
    if size > 0 && given != NULL && Capacity(v) + ideal <= MAX_STACK_SIZE {
      GrowsOnWords(v, size, alignment);
      GrownFrameFits(given, Last(v), size, alignment);
    }
    hide AlignUp, Round, IsPowerOfTwo, FramesOk, Capacity, Fits, FitsWords, FirstSlips, GrowSlips, MayGrow, Wanted;
  }

  /** A size that wraps when it is rounded to a power of two: if the frame has any aligned position left, the
      caller gets a pointer and no bytes, although none of the memory of the frame has `size` bytes. */
  lemma WrappedSizeHasNoBytes(v: seq<Frame>, size: nat, alignment: nat, given: nat)
    requires FramesOk(v) && size < U32 && alignment < U32 && IsPowerOfTwo(alignment) && size + alignment - 1 >= U32
    requires AlignUp(Last(v).current, alignment) <= End(Last(v))
    ensures var o := OnWords(v, size, alignment, given);
      && o.ptr == AlignUp(Last(v).current, alignment) == Last(o.frames).current
      && |o.frames| == |v| && Last(v).size < size
      && Misled(v, size, alignment, given)
  {
    WrappedIsZero(size, alignment);
    MaskIsRounding(size, alignment);
    CapacityHolds(v);
    LastOk(v);
    hide AlignUp, Round, IsPowerOfTwo, FramesOk;
  }

  function OneFrame(): seq<Frame> {
    [NewFrame(0x100000, 0x10000)]
  }

  lemma OneFrameOk()
    ensures FramesOk(OneFrame()) && Capacity(OneFrame()) == 0x10000
  {
    assert Capacity(OneFrame()[..0]) == 0;
  }

  /** The largest size, with the alignment of 16: the caller gets the start of the frame, and nothing is taken. */
  lemma LargestSizeHasNoBytes(given: nat)
    ensures var o := OnWords(OneFrame(), 0xFFFF_FFFF, 16, given);
      && o.ptr == Last(o.frames).current == 0x100020
      && Misled(OneFrame(), 0xFFFF_FFFF, 16, given)
      && Ideal(OneFrame(), 0xFFFF_FFFF, 16, given) == Outcome(OneFrame(), NULL)
  {
    OneFrameOk();
    SixteenIsPower();
    AlignedStays(0x100020);
    WrappedSizeHasNoBytes(OneFrame(), 0xFFFF_FFFF, 16, given);
    hide AlignUp, Round, IsPowerOfTwo, Capacity, OnWords, Misled;
  }

  /** Half the address space, with the alignment of 16: the doubled size wraps to 0, so that grow adds a frame
      of twice the size of the last one, in which the request does not fit either. */
  lemma HalfSpaceOnlyGrows(v: seq<Frame>, given: nat)
    requires FramesOk(v) && given != NULL && Capacity(v) + 2 * Last(v).size <= MAX_STACK_SIZE
    requires End(Last(v)) + 0x8000_0010 <= U32 && given + FRAME_HEADER + 0x8000_0010 <= U32
    ensures OnWords(v, 0x8000_0000, 16, given) == Outcome(v + [NewFrame(given, 2 * Last(v).size)], NULL)
    ensures Ideal(v, 0x8000_0000, 16, given) == Outcome(v, NULL) && Misled(v, 0x8000_0000, 16, given)
  {
    CapacityHolds(v);
    LastOk(v);
    HalfSpaceFitsNowhere(Last(v));
    HalfSpaceFitsNowhere(NewFrame(given, 2 * Last(v).size));
    AlignedStays(0x8000_0000);
    hide AlignUp, Round, FramesOk, Capacity, Fits, FitsWords;
    assert Wanted(v, 0x8000_0000, 16) == 2 * Last(v).size;
    assert MayGrow(v, 2 * Last(v).size);
  }

  lemma HalfSpaceFitsNowhere(f: Frame)
    requires f.current <= End(f) && f.current + 0x8000_0010 <= U32 && f.size <= MAX_STACK_SIZE
    requires f.current >= Start(f) && End(f) < U32
    ensures !FitsWords(f, 0x8000_0000, 16) && !Fits(f, 0x8000_0000, 16)
  {
    AlignedStays(0x8000_0000);
    RoundBelow(f.current, 16);
    MaskIsRounding(f.current, 16);
    hide AlignUp, Round;
  }

  lemma SixteenIsPower()
    ensures IsPowerOfTwo(16)
  {
    assert IsPowerOfTwo(2) && IsPowerOfTwo(4) && IsPowerOfTwo(8);
  }

  lemma AlignedStays(x: nat)
    requires x < U32 && x % 16 == 0
    ensures Round(x, 16) == AlignUp(x, 16) == x
  {
    SixteenIsPower();
    RoundIs(x, 16);
    MaskIsRounding(x, 16);
    hide AlignUp, Round, IsPowerOfTwo;
    MultiplesApart(x, Round(x, 16), 16);
  }
}
