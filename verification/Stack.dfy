/** The growing bump allocator: frames in memory, linked both ways, and the counters. kmalloc is a
    parameter: the address it would return, or 0. All arithmetic is on 32 bits. */
module Stack {
  import opened StackFrames
  import opened Words

  datatype FrameStruct = FrameStruct(start: nat, current: nat, end: nat, size: nat, prev: nat, next: nat)

  type Memory = map<nat, FrameStruct>

  function AddrAt(frames: seq<Frame>, i: int): nat {
    if 0 <= i < |frames| then frames[i].addr else NULL
  }

  function StructOf(f: Frame, prev: nat, next: nat): FrameStruct {
    FrameStruct(Wrap(Start(f)), f.current, Wrap(End(f)), f.size, prev, next)
  }

  ghost predicate StoredAt(m: Memory, frames: seq<Frame>, i: nat)
    requires i < |frames|
  {
    frames[i].addr in m && m[frames[i].addr] == StructOf(frames[i], AddrAt(frames, i - 1), AddrAt(frames, i + 1))
  }

  ghost predicate Stored(m: Memory, frames: seq<Frame>) {
    forall i {:trigger StoredAt(m, frames, i)} :: 0 <= i < |frames| ==> StoredAt(m, frames, i)
  }

  lemma LastStored(m: Memory, frames: seq<Frame>)
    requires Stored(m, frames) && frames != []
    ensures Last(frames).addr in m
    ensures m[Last(frames).addr] == StructOf(Last(frames), AddrAt(frames, |frames| - 2), NULL)
    ensures |frames| > 1 ==> AddrAt(frames, |frames| - 2) in m
  {
    assert StoredAt(m, frames, |frames| - 1);
    if |frames| > 1 { assert StoredAt(m, frames, |frames| - 2); }
  }

  /** No two frames are at one address. */
  ghost predicate Addressed(frames: seq<Frame>) {
    && (forall i :: 0 <= i < |frames| ==> frames[i].addr != NULL)
    && forall i, j :: 0 <= i < j < |frames| ==> frames[i].addr != frames[j].addr
  }

  lemma TopAddressed(frames: seq<Frame>, f: Frame)
    requires Addressed(frames) && frames != [] && f.addr == Last(frames).addr
    ensures Addressed(Top(frames, f))
  {
    var t := Top(frames, f);
    assert forall i :: 0 <= i < |t| ==> t[i].addr == frames[i].addr;
  }

  lemma TopStored(m: Memory, frames: seq<Frame>, f: Frame)
    requires Stored(m, frames) && Addressed(frames) && frames != []
    requires f.addr == Last(frames).addr && f.size == Last(frames).size
    ensures f.addr in m && Stored(m[f.addr := m[f.addr].(current := f.current)], Top(frames, f))
  {
    LastStored(m, frames);
    var t, m' := Top(frames, f), m[f.addr := m[f.addr].(current := f.current)];
    forall i: nat | i < |t| ensures StoredAt(m', t, i) {
      assert StoredAt(m, frames, i);
      assert AddrAt(t, i - 1) == AddrAt(frames, i - 1) && AddrAt(t, i + 1) == AddrAt(frames, i + 1);
    }
  }

  /** allocate_frame and link_frame. */
  function Linked(m: Memory, last: nat, f: Frame): Memory
    requires last in m
  {
    m[last := m[last].(next := f.addr)][f.addr := StructOf(f, last, NULL)]
  }

  lemma GrownStored(m: Memory, frames: seq<Frame>, f: Frame)
    requires Stored(m, frames) && Addressed(frames) && frames != []
    requires forall i :: 0 <= i < |frames| ==> frames[i].addr != f.addr
    ensures Last(frames).addr in m && Stored(Linked(m, Last(frames).addr, f), frames + [f])
  {
    LastStored(m, frames);
    var t, m' := frames + [f], Linked(m, Last(frames).addr, f);
    forall i: nat | i < |t| ensures StoredAt(m', t, i) {
      assert AddrAt(t, i - 1) == if i < |frames| then AddrAt(frames, i - 1) else Last(frames).addr;
      if i < |frames| { assert StoredAt(m, frames, i); }
    }
  }

  lemma ShrunkStored(m: Memory, frames: seq<Frame>)
    requires Stored(m, frames) && Addressed(frames) && |frames| > 1
    ensures var prev := AddrAt(frames, |frames| - 2);
      && prev in m && prev != NULL && prev != Last(frames).addr
      && Stored(m[prev := m[prev].(next := NULL)], frames[..|frames| - 1])
  {
    LastStored(m, frames);
    var n := |frames| - 1;
    var t, prev := frames[..n], AddrAt(frames, n - 1);
    var m' := m[prev := m[prev].(next := NULL)];
    forall i: nat | i < |t| ensures StoredAt(m', t, i) {
      assert StoredAt(m, frames, i);
    }
  }

  /** The nearest size in the range that a stack may have. */
  function Clamped(size: nat): nat {
    if size < MIN_STACK_SIZE then MIN_STACK_SIZE else if size > MAX_STACK_SIZE then MAX_STACK_SIZE else size
  }

  class StackAllocator {
    var frames: Memory
    var currentFrame: nat
    var frameList: nat
    var totalCapacity: nat
    var frameCount: nat
    var initialized: bool
    ghost var view: seq<Frame>

    /** The fields, the structs in memory and the view agree. */
    ghost predicate Consistent()
      reads this
    {
      if !initialized then view == []
      else
        && view != [] && Stored(frames, view) && Addressed(view)
        && currentFrame == Last(view).addr && frameList == view[0].addr
        && totalCapacity == Wrap(Capacity(view)) && frameCount == |view|
    }

    /** Moreover, all live regions are in bounds and apart, and the capacity is within 1 MB. */
    ghost predicate Valid()
      reads this
    {
      Consistent() && (initialized ==> FramesOk(view) && frameCount <= 8)
    }

    constructor ()
      ensures Valid() && !initialized
    {
      frames, currentFrame, frameList, totalCapacity, frameCount, initialized, view := map[], NULL, NULL, 0, 0, false, [];
    }

    /** The struct that allocate_frame writes at the address that kmalloc returned. */
    static function FrameAt(memory: nat, size: nat): FrameStruct {
      var start := Wrap(memory + FRAME_HEADER);
      FrameStruct(start, start, Wrap(start + size), size, NULL, NULL)
    }

    /** init with a size that is clamped to the range from 4096 bytes to 1 MB. */
    method Init(initialSize: nat, given: nat)
      requires Valid() && given + FRAME_HEADER + Clamped(initialSize) < U32
      modifies this
      ensures Valid()
      ensures old(initialized) ==> view == old(view)
      ensures !old(initialized) ==>
        if given == NULL then !initialized else initialized && view == [NewFrame(given, Clamped(initialSize))]
      ensures !old(initialized) && given != NULL ==>
        && |view| == 1 && view[0].addr == given && view[0].current == given + 32 && view[0].regions == []
        && view[0].size == if initialSize < 4096 then 4096 else if initialSize <= 1_048_576 then initialSize else 1_048_576
    {
      if initialized {
        return;
      }
      var size := initialSize;
      if size < MIN_STACK_SIZE {
        size := MIN_STACK_SIZE;
      }
      if size > MAX_STACK_SIZE {
        size := MAX_STACK_SIZE;
      }
      if given == NULL {
        return;
      }
      frames := frames[given := FrameAt(given, size)];
      currentFrame := given;
      frameList := currentFrame;
      totalCapacity := size;
      frameCount := 1;
      initialized := true;
      view := [NewFrame(given, size)];
      assert Capacity([]) == 0 && view[..0] == [];
      assert FrameOk(view[0]);
      assert StoredAt(frames, view, 0);
    }

    /** allocate_frame with memory at hand, and link_frame behind the current frame. */
    method LinkFrame(given: nat, size: nat)
      requires currentFrame in frames && currentFrame != given && currentFrame != NULL
      modifies `frames, `frameList
      ensures frames == Linked(old(frames), currentFrame, NewFrame(given, size))
      ensures frameList == if old(frameList) == NULL then given else old(frameList)
    {
      hide Linked, NewFrame;
      frames := frames[given := FrameAt(given, size)];
      frames := frames[given := frames[given].(next := NULL)];
      frames := frames[given := frames[given].(prev := currentFrame)];
      LinkSteps(old(frames), currentFrame, given, size);
      if currentFrame != NULL {
        frames := frames[currentFrame := frames[currentFrame].(next := given)];
      }
      if frameList == NULL {
        frameList := given;
      }
    }

    /** grow: a new frame, at least twice as large as the current one. The check of the capacity may wrap. */
    method Grow(additional: nat, given: nat) returns (ok: bool)
      requires Valid() && initialized && additional < U32
      requires given != NULL ==> Fresh(view, given, Wrap(FRAME_HEADER + GrowSizeWords(Last(view), additional)))
      modifies this
      ensures Consistent() && initialized
      ensures ok <==> given != NULL && MayGrow(old(view), GrowSizeWords(Last(old(view)), additional))
      ensures view == if ok then old(view) + [NewFrame(given, GrowSizeWords(Last(old(view)), additional))] else old(view)
      ensures Valid() <==> !ok || Capacity(view) <= MAX_STACK_SIZE
      ensures ok ==>
        && |view| == |old(view)| + 1 && view[..|old(view)|] == old(view)
        && Last(view).addr == given && Last(view).current == (given + 32) % 0x1_0000_0000 && Last(view).regions == []
        && 2 * Last(old(view)).size <= Last(view).size && additional <= Last(view).size
        && (Last(view).size == 2 * Last(old(view)).size || Last(view).size == additional)
    {
      hide Capacity, FramesOk, Stored, FrameOk, Addressed, Fresh, Linked, NewFrame;
      LastStored(frames, view);
      LastOk(view);
      CapacityHolds(view);
      WrapOnce(Last(view).size * 2);
      hide Wrap;
      var newFrameSize := additional;
      if newFrameSize < Wrap(frames[currentFrame].size * 2) {
        newFrameSize := Wrap(frames[currentFrame].size * 2);
      }
      if Wrap(totalCapacity + newFrameSize) > MAX_STACK_SIZE {
        return false;
      }
      if given == NULL {
        return false;
      }
      ghost var f := NewFrame(given, newFrameSize);
      GrowFacts(frames, view, given, newFrameSize);
      GrownShape(view, given, newFrameSize);
      LinkFrame(given, newFrameSize);
      currentFrame := given;
      totalCapacity := Wrap(totalCapacity + newFrameSize);
      frameCount := frameCount + 1;
      view := view + [f];
      ok := true;
    }

    /** The part of alloc that takes the bytes. */
    method Bump(size: nat, alignment: nat) returns (ptr: nat)
      requires Consistent() && initialized && alignment < U32
      modifies `frames, `view
      ensures Consistent() && Outcome(view, ptr) == ServedWords(old(view), size, alignment)
    {
      hide Capacity, Stored, AlignUp, Addressed;
      LastStored(frames, view);
      ghost var f := PushedWords(Last(view), size, alignment);
      TopAddressed(view, f);
      TopCapacity(view, f);
      TopStored(frames, view, f);
      ptr := AlignUp(frames[currentFrame].current, alignment);
      frames := frames[currentFrame := frames[currentFrame].(current := Wrap(ptr + AlignUp(size, alignment)))];
      view := Top(view, f);
    }

    /** alloc, for all sizes and alignments. The outcome is the ideal one, and all live regions stay in bounds
        and apart, unless one of the checks is misled. */
    method Alloc(size: nat, alignment: nat, given: nat) returns (ptr: nat)
      requires Valid() && size < U32 && alignment < U32
      requires initialized && given != NULL ==> Fresh(view, given, Wrap(FRAME_HEADER + Wanted(view, size, alignment)))
      modifies this
      ensures Consistent() && initialized == old(initialized)
      ensures !initialized ==> ptr == NULL
      ensures initialized ==>
        && Outcome(view, ptr) == OnWords(old(view), size, alignment, given)
        && (Outcome(view, ptr) == Ideal(old(view), size, alignment, given) <==> !Misled(old(view), size, alignment, given))
        && (!Misled(old(view), size, alignment, given) ==> Valid())
    {
      hide Capacity, FramesOk, Stored, AlignUp, Round, Misled, MayGrow, Addressed, Ideal, Fresh, ServedWords, NewFrame,
           GrowSizeWords;
      if !initialized {
        return NULL;
      }
      Verdict(view, size, alignment, given);
      if size == 0 {
        return NULL;
      }
      ghost var v := view;
      var alignedSize := AlignUp(size, alignment);
      LastStored(frames, view);
      var aligned := AlignUp(frames[currentFrame].current, alignment);
      if Wrap(aligned + alignedSize) > frames[currentFrame].end {
        var ok := Grow(Wrap(alignedSize * 2), given);
        if !ok {
          return NULL;
        }
        LastStored(frames, view);
        aligned := AlignUp(frames[currentFrame].current, alignment);
        if Wrap(aligned + alignedSize) > frames[currentFrame].end {
          EightFrames(view);
          return NULL;
        }
      }
      ptr := Bump(size, alignment);
      EightFrames(view);
    }

    /** alloc_aligned: an alignment that is not a power of two becomes 16. What it hands out is a multiple of
        the alignment and inside the last frame. */
    method AllocAligned(size: nat, alignment: nat, given: nat) returns (ptr: nat)
      requires Valid() && size < U32 && alignment < U32
      requires initialized && given != NULL ==>
        Fresh(view, given, Wrap(FRAME_HEADER + Wanted(view, size, Alignment(alignment))))
      modifies this
      ensures Consistent() && initialized == old(initialized)
      ensures !initialized ==> ptr == NULL
      ensures initialized ==> Outcome(view, ptr) == OnWords(old(view), size, Alignment(alignment), given)
      ensures initialized && !Misled(old(view), size, Alignment(alignment), given) ==>
        && Valid() && Outcome(view, ptr) == Ideal(old(view), size, Alignment(alignment), given)
        && (ptr == NULL <==> size == 0 || NoRoom(old(view), size, Alignment(alignment), given))
        && (ptr == NULL ==> view == old(view))
        && (ptr != NULL ==> IsMultiple(ptr, Alignment(alignment)) && ptr + size <= Last(view).current <= End(Last(view)))
        && (ptr != NULL ==>
              NextPlace(old(view), size, if IsPowerOfTwo(alignment) then alignment else 16, given, view, ptr))
    {
      hide Capacity, FramesOk, Stored, And, AlignUp, Round, Misled, Addressed, IsPowerOfTwo, OnWords, Ideal, NoRoom, Wanted,
           NextPlace;
      var a := alignment;
      AlignmentIs(alignment);
      if alignment == 0 || And(alignment, alignment - 1) != 0 {
        a := STACK_ALIGNMENT;
      }
      if initialized && !Misled(view, size, a, given) {
        PowersAreServed(view, size, a, given);
        IdealIsNextPlace(view, size, a, given);
      }
      ptr := Alloc(size, a, given);
    }

    /** reset: the current frame is empty again. */
    method Reset()
      requires Valid()
      modifies this
      ensures Valid() && initialized == old(initialized)
      ensures initialized ==> view == Top(old(view), NewFrame(Last(old(view)).addr, Last(old(view)).size))
      ensures initialized ==>
        && |view| == |old(view)| && view[..|view| - 1] == old(view)[..|view| - 1]
        && Last(view) == Last(old(view)).(current := Last(old(view)).addr + 32, regions := [])
    {
      hide Capacity, FramesOk, Stored;
      if !initialized {
        return;
      }
      LastStored(frames, view);
      LastOk(view);
      ghost var f := NewFrame(Last(view).addr, Last(view).size);
      TopOk(view, f);
      TopStored(frames, view, f);
      frames := frames[currentFrame := frames[currentFrame].(current := frames[currentFrame].start)];
      view := Top(view, f);
    }

    /** shrink_to_fit: empty frames at the end are released, but never the first frame. */
    method ShrinkToFit() returns (shrunk: bool)
      requires Valid()
      modifies this
      ensures Valid() && initialized == old(initialized)
      ensures shrunk <==> initialized && |old(view)| > 1
      ensures initialized ==> view == Shrunk(old(view)) && (|view| == 1 || Last(view).current > Start(Last(view)))
      ensures |view| <= |old(view)| && view == old(view)[..|view|]
      ensures forall i :: |view| <= i < |old(view)| ==> old(view)[i].current == old(view)[i].addr + 32
      ensures forall i, k {:trigger old(view)[i].regions[k]} ::
        |view| <= i < |old(view)| && 0 <= k < |old(view)[i].regions| ==> old(view)[i].regions[k].size == 0
    {
      hide Capacity, FramesOk, Stored, FrameOk;
      if !initialized || frameCount <= 1 {
        return false;
      }
      ghost var v := view;
      OnlyEmptyOnesGo(v);
      NoByteIsLost(v);
      hide Shrunk;
      LastStored(frames, view);
      LastOk(view);
      while frameCount > 1 && frames[currentFrame].current - frames[currentFrame].start == 0
        invariant Valid() && initialized && Shrunk(view) == Shrunk(v)
        invariant currentFrame in frames
        invariant frames[currentFrame] == StructOf(Last(view), AddrAt(view, |view| - 2), NULL)
        invariant Start(Last(view)) <= Last(view).current && End(Last(view)) < U32
        decreases |view|
      {
        ShrunkOnce(view);
        var prevFrame := frames[currentFrame].prev;
        if prevFrame == NULL {
          break;
        }
        UnlinkLast(prevFrame);
        LastStored(frames, view);
        LastOk(view);
      }
      if |view| > 1 { ShrunkOnce(view); } else { OnlyOneStays(view); }
      shrunk := true;
    }

    /** unlink_frame of the current frame, behind which there is none, and the counters. */
    method UnlinkLast(prevFrame: nat)
      requires Valid() && initialized && |view| > 1 && prevFrame == AddrAt(view, |view| - 2)
      modifies `frames, `totalCapacity, `currentFrame, `frameCount, `view
      ensures Valid() && view == old(view)[..|old(view)| - 1]
    {
      hide Capacity, FramesOk, Stored, FrameOk;
      LastStored(frames, view);
      CapacityHolds(view);
      ShrunkOk(view);
      ShrunkStored(frames, view);
      var size := frames[currentFrame].size;
      frames := frames[prevFrame := frames[prevFrame].(next := NULL)];
      totalCapacity := totalCapacity - size;
      currentFrame := prevFrame;
      frameCount := frameCount - 1;
      view := view[..|view| - 1];
    }
  }

  /** The order of the writes to two different structs does not matter. */
  lemma LinkSteps(m: Memory, last: nat, given: nat, size: nat)
    requires last in m && last != given
    ensures var m' := m[given := StackAllocator.FrameAt(given, size)][given := StackAllocator.FrameAt(given, size).(next := NULL)]
                       [given := StackAllocator.FrameAt(given, size).(next := NULL).(prev := last)];
      m'[last := m'[last].(next := given)] == Linked(m, last, NewFrame(given, size))
  {
  }

  lemma GrowFacts(m: Memory, v: seq<Frame>, given: nat, size: nat)
    requires FramesOk(v) && Stored(m, v) && Addressed(v) && size < U32 && size >= Wrap(2 * Last(v).size)
    requires Fresh(v, given, Wrap(FRAME_HEADER + size))
    ensures var w := v + [NewFrame(given, size)];
      && given != NULL && Last(v).addr in m && Last(v).addr != given && Last(w).addr == given
      && Stored(Linked(m, Last(v).addr, NewFrame(given, size)), w) && Addressed(w)
      && Wrap(Wrap(Capacity(v)) + size) == Wrap(Capacity(w))
      && (FramesOk(w) && |w| <= 8 <==> Capacity(w) <= MAX_STACK_SIZE)
  {
    hide Capacity, FramesOk, Stored, FrameOk, Addressed, Linked;
    ghost var f := NewFrame(given, size);
    LastOk(v);
    NewAddressed(v, f);
    GrownStored(m, v, f);
    CapacityNext(v, f);
    WrapSum(Capacity(v), size);
    GrownSoundIff(v, given, size);
  }

  lemma GrownShape(v: seq<Frame>, given: nat, size: nat)
    ensures var w := v + [NewFrame(given, size)];
      && w[..|v|] == v && Last(w).addr == given && Last(w).current == (given + 32) % 0x1_0000_0000
      && Last(w).regions == [] && Last(w).size == size
  {
  }

  lemma NewAddressed(v: seq<Frame>, f: Frame)
    requires Addressed(v) && f.addr != NULL && forall i :: 0 <= i < |v| ==> v[i].addr != f.addr
    ensures Addressed(v + [f])
  {
  }

  lemma TopCapacity(v: seq<Frame>, f: Frame)
    requires v != [] && f.size == Last(v).size
    ensures Capacity(Top(v, f)) == Capacity(v)
  {
    assert Top(v, f)[..|v| - 1] == v[..|v| - 1];
  }

  lemma WrapSum(a: nat, b: nat)
    ensures Wrap(Wrap(a) + b) == Wrap(a + b)
  {
  }

  lemma GrownSoundIff(v: seq<Frame>, given: nat, size: nat)
    requires FramesOk(v) && size < U32 && size >= Wrap(2 * Last(v).size) && Fresh(v, given, Wrap(FRAME_HEADER + size))
    ensures var w := v + [NewFrame(given, size)];
      FramesOk(w) && |w| <= 8 <==> Capacity(w) <= MAX_STACK_SIZE
  {
    hide FrameOk;
    var w := v + [NewFrame(given, size)];
    CapacityHolds(v);
    CapacityNext(v, NewFrame(given, size));
    if Capacity(w) <= MAX_STACK_SIZE {
      GrownOk(v, given, size);
      AtMostEightFrames(w);
    }
  }

  lemma EightFrames(v: seq<Frame>)
    ensures FramesOk(v) ==> |v| <= 8
  {
    if FramesOk(v) { AtMostEightFrames(v); }
  }

  /** What AllocIsIdealIff and IdealKeeps say together. */
  lemma Verdict(v: seq<Frame>, size: nat, alignment: nat, given: nat)
    requires FramesOk(v) && size < U32 && alignment < U32
    requires given != NULL ==> Fresh(v, given, Wrap(FRAME_HEADER + Wanted(v, size, alignment)))
    ensures OnWords(v, size, alignment, given) == Ideal(v, size, alignment, given)
      <==> !Misled(v, size, alignment, given)
    ensures !Misled(v, size, alignment, given) ==> FramesOk(OnWords(v, size, alignment, given).frames)
  {
    LastOk(v);
    hide AlignUp, Round, FrameOk, FramesOk, OnWords, Ideal, Misled, Wanted, Capacity;
    AllocIsIdealIff(v, size, alignment, given);
    if !Misled(v, size, alignment, given) {
      FreshIdeal(v, size, alignment, given);
      IdealKeeps(v, size, alignment, given);
    }
  }

  const STACK_ALIGNMENT: nat := 16

  function Alignment(alignment: nat): (a: nat)
    ensures a > 0
  {
    if IsPowerOfTwo(alignment) then alignment else STACK_ALIGNMENT
  }

  lemma AlignmentIs(alignment: nat)
    requires alignment < U32
    ensures IsPowerOfTwo(Alignment(alignment)) && 0 < Alignment(alignment) < U32
    ensures Alignment(alignment)
      == if alignment == 0 || And(alignment, alignment - 1) != 0 then STACK_ALIGNMENT else alignment
  {
    if alignment > 0 { PowerTest(alignment); }
    hide And;
    SixteenIsPower();
  }

  /** The request does not fit in the last frame, and no frame can be added. */
  predicate NoRoom(v: seq<Frame>, size: nat, alignment: nat, given: nat)
    requires v != []
  {
    && !Fits(Last(v), size, alignment)
    && (given == NULL || Capacity(v) + GrowSize(Last(v), 2 * Round(size, alignment)) > MAX_STACK_SIZE)
  }

  /** On unbounded numbers, a request with a power of two fails only if there is no room, and then changes
      nothing; otherwise it gives a multiple of the alignment with `size` bytes behind it. */
  lemma PowersAreServed(v: seq<Frame>, size: nat, alignment: nat, given: nat)
    requires FramesOk(v) && IsPowerOfTwo(alignment) && alignment > 0 && size < U32 && alignment < U32
    requires given != NULL ==> Fresh(v, given, Wrap(FRAME_HEADER + Wanted(v, size, alignment)))
    ensures var o := Ideal(v, size, alignment, given);
      && (o.ptr == NULL <==> size == 0 || NoRoom(v, size, alignment, given))
      && (if o.ptr == NULL then o.frames == v
          else o.frames != [] && IsMultiple(o.ptr, alignment)
               && o.ptr + size <= Last(o.frames).current <= End(Last(o.frames)))
  {
    hide Round, IsPowerOfTwo, IsMultiple, FramesOk, Capacity, Wanted;
    LastOk(v);
    RoundIs(Last(v).current, alignment);
    if size > 0 && !Fits(Last(v), size, alignment) && !NoRoom(v, size, alignment, given) {
      FreshIdeal(v, size, alignment, given);
      GrownFrameFits(given, Last(v), size, alignment);
      RoundIs(given + FRAME_HEADER, alignment);
    }
  }

  /** Frames after shrink_to_fit. */
  function Shrunk(v: seq<Frame>): seq<Frame>
    decreases |v|
  {
    if |v| > 1 && Last(v).current == Start(Last(v)) then Shrunk(v[..|v| - 1]) else v
  }

  /** Only frames at the end go, and only empty ones. */
  lemma {:induction false} OnlyEmptyOnesGo(v: seq<Frame>)
    ensures var w := Shrunk(v);
      && |w| <= |v| && w == v[..|w|] && (v != [] ==> w != [])
      && (forall i :: |w| <= i < |v| ==> v[i].current == v[i].addr + 32)
      && (|w| > 1 ==> Last(w).current != Last(w).addr + 32)
    decreases |v|
  {
    if |v| > 1 && Last(v).current == Start(Last(v)) {
      var u := v[..|v| - 1];
      OnlyEmptyOnesGo(u);
      assert forall i :: |Shrunk(u)| <= i < |u| ==> v[i] == u[i];
    }
  }

  lemma ShrunkOnce(v: seq<Frame>)
    requires |v| > 1
    ensures Shrunk(v) == if Last(v).current == Start(Last(v)) then Shrunk(v[..|v| - 1]) else v
  {
  }

  lemma OnlyOneStays(v: seq<Frame>)
    requires |v| == 1
    ensures Shrunk(v) == v
  {
  }

  /** None of the live regions that goes with an empty frame has a byte. */
  lemma NoByteIsLost(v: seq<Frame>)
    requires FramesOk(v)
    ensures var w := Shrunk(v);
      forall i, k {:trigger v[i].regions[k]} :: |w| <= i < |v| && 0 <= k < |v[i].regions| ==> v[i].regions[k].size == 0
  {
    OnlyEmptyOnesGo(v);
    hide Shrunk, FrameOk, Doubling, Capacity;
    var w := Shrunk(v);
    forall i, k {:trigger v[i].regions[k]} | |w| <= i < |v| && 0 <= k < |v[i].regions|
      ensures v[i].regions[k].size == 0
    {
      assert FrameOk(v[i]);
      RegionInFrame(v[i], k);
    }
  }
}
