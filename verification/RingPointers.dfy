/**
 The two-modulus pointer arithmetic of the mmap ring: `hw_ptr` and `appl_ptr`
 live modulo `boundary`, the frames they point at live modulo `buffer_size`.
 */
module RingPointers {
  import opened CTypes

  /** What the kernel guarantees of the boundary it stores at SW_PARAMS. */
  predicate Shape(size: nat, boundary: nat) {
    && 0 < size <= UINT_MAX
    && size < boundary
    && CellOf(boundary, size) == 0
    && boundary + size <= LONG_MAX
  }

  /**
   The cell pointer `p` is at: `p % size`, by repeated subtraction. `CellIsRemainder`
   proves the two equal; the proofs about the ring then need only linear arithmetic.
   */
  function CellOf(p: nat, size: nat): (c: nat)
    requires 0 < size
    ensures c < size
  {
    if p < size then p else CellOf(p - size, size)
  }

  /** How far `to` is ahead of `from` on the circle of length `boundary`. */
  function Dist(from: nat, to: nat, boundary: nat): nat
    requires from < boundary && to < boundary
  {
    if from <= to then to - from else to - from + boundary
  }

  /** `p` moved forward by `n`, wrapped once. */
  function Advance(p: nat, n: nat, boundary: nat): (q: nat)
    requires p < boundary && n < boundary
    ensures q < boundary && Dist(p, q, boundary) == n
  {
    if p + n >= boundary then p + n - boundary else p + n
  }

  /** The `j`-th cell after cell `offset` in a ring of `size` cells. */
  function Slot(offset: nat, j: nat, size: nat): (s: nat)
    requires offset < size && j <= size
    ensures s < size
  {
    if offset + j < size then offset + j else offset + j - size
  }

  /** `pcm_mmap_playback_avail`, with the conversions the C expression makes. */
  function PlaybackAvail(hw: nat, appl: nat, size: nat, boundary: nat): int {
    var avail := ToLong(ToULong(hw + size - appl));
    if avail < 0 then ToLong(ToULong(avail + boundary))
    else if ToULong(avail) >= boundary then ToLong(ToULong(avail - boundary))
    else avail
  }

  /** `pcm_mmap_capture_avail`. */
  function CaptureAvail(hw: nat, appl: nat, boundary: nat): int {
    var avail := ToLong(ToULong(hw - appl));
    if avail < 0 then ToLong(ToULong(avail + boundary)) else avail
  }

  /** The pointer update of `pcm_mmap_appl_forward`. */
  function ApplForward(appl: nat, frames: int, boundary: nat): nat {
    var p := ToULong(appl + frames);
    if p >= boundary then p - boundary else p
  }

  lemma ModInRange(x: int, m: int)
    requires 0 <= x < m
    ensures x % m == x
  {
  }

  lemma ModShift(x: int, m: int)
    requires 0 < m
    ensures (x + m) % m == x % m
    ensures (x - m) % m == x % m
  {
    ModAddMultiple(x, 1, m);
    ModAddMultiple(x - m, 1, m);
  }

  lemma ModAddMultiple(x: int, k: int, m: int)
    requires 0 < m
    ensures (x + k * m) % m == x % m
  {
    var q, r := x / m, x % m;
    assert x + k * m == (q + k) * m + r;
    DivModUnique(x + k * m, q + k, r, m);
  }

  lemma DivModUnique(x: int, q: int, r: int, m: int)
    requires 0 < m && 0 <= r < m && x == q * m + r
    ensures x / m == q && x % m == r
  {
    var d := x / m - q;
    assert d * m == r - x % m;
    assert d >= 1 ==> d * m >= m;
    assert d <= -1 ==> d * m <= -m;
  }

  /** In the range of `long` the round trip through `unsigned long` is the identity. */
  lemma LongRoundTrip(x: int)
    requires -LONG_MAX <= x <= LONG_MAX
    ensures ToLong(ToULong(x)) == x
    ensures x >= 0 ==> ToULong(x) == x
  {
  }

  /** A count that fits `unsigned int` survives being returned as `int` and read back as unsigned. */
  lemma UIntRoundTrip(x: nat)
    requires x <= UINT_MAX
    ensures ToUInt(ToInt(x)) == x
  {
  }

  /** The playback computation is exact arithmetic modulo `boundary`, for every pair of pointers. */
  lemma PlaybackAvailModulo(hw: nat, appl: nat, size: nat, boundary: nat)
    requires Shape(size, boundary) && hw < boundary && appl < boundary
    ensures PlaybackAvail(hw, appl, size, boundary) == (hw + size - appl) % boundary
  {
    var x := hw + size - appl;
    LongRoundTrip(x);
    LongRoundTrip(if x < 0 then x + boundary else x - boundary);
    if x < 0 {
      ModShift(x, boundary);
      ModInRange(x + boundary, boundary);
    } else if x >= boundary {
      ModShift(x, boundary);
      ModInRange(x - boundary, boundary);
    } else {
      ModInRange(x, boundary);
    }
  }

  /** So is the capture computation. */
  lemma CaptureAvailModulo(hw: nat, appl: nat, size: nat, boundary: nat)
    requires Shape(size, boundary) && hw < boundary && appl < boundary
    ensures CaptureAvail(hw, appl, boundary) == (hw - appl) % boundary
    ensures CaptureAvail(hw, appl, boundary) == Dist(appl, hw, boundary)
  {
    var x := hw - appl;
    LongRoundTrip(x);
    if x < 0 {
      LongRoundTrip(x + boundary);
      ModShift(x, boundary);
      ModInRange(x + boundary, boundary);
    } else {
      ModInRange(x, boundary);
    }
  }

  /** Room in a playback ring is its size less what is queued, whenever no more than a ring is queued. */
  lemma PlaybackAvailIsRoom(hw: nat, appl: nat, size: nat, boundary: nat)
    requires Shape(size, boundary) && hw < boundary && appl < boundary
    ensures Dist(hw, appl, boundary) <= size ==>
              PlaybackAvail(hw, appl, size, boundary) == size - Dist(hw, appl, boundary)
  {
    PlaybackAvailModulo(hw, appl, size, boundary);
    if Dist(hw, appl, boundary) <= size {
      if hw <= appl {
        ModInRange(size - (appl - hw), boundary);
      } else {
        ModShift(hw + size - appl, boundary);
        ModInRange(hw + size - appl - boundary, boundary);
      }
    }
  }

  /** `CellOf` is the C remainder; in particular `Shape` says that `size` divides `boundary`. */
  lemma {:induction false} CellIsRemainder(p: nat, size: nat)
    requires 0 < size
    ensures CellOf(p, size) == p % size
  {
    if p < size {
      ModInRange(p, size);
    } else {
      CellIsRemainder(p - size, size);
      ModShift(p - size, size);
    }
  }

  /** Moving forward by `j` cells without wrapping the pointer. */
  lemma {:induction false} OffsetSlot(p: nat, j: nat, size: nat)
    requires 0 < size && j <= size
    ensures CellOf(p + j, size) == Slot(CellOf(p, size), j, size)
  {
    if p >= size {
      OffsetSlot(p - size, j, size);
    }
  }

  lemma {:induction false} CellPeriodic(p: nat, boundary: nat, size: nat)
    requires 0 < size && CellOf(boundary, size) == 0
    ensures CellOf(p + boundary, size) == CellOf(p, size)
  {
    if boundary >= size {
      CellPeriodic(p, boundary - size, size);
      assert CellOf(p + boundary, size) == CellOf(p + boundary - size, size);
    }
  }

  /** Cells are not disturbed by the wrap at `boundary`, because `size` divides it. */
  lemma AdvanceSlot(p: nat, n: nat, size: nat, boundary: nat)
    requires Shape(size, boundary) && p < boundary && n <= size
    ensures CellOf(Advance(p, n, boundary), size) == Slot(CellOf(p, size), n, size)
  {
    OffsetSlot(p, n, size);
    if p + n >= boundary {
      CellPeriodic(p + n - boundary, boundary, size);
    }
  }

  lemma DistSlot(from: nat, to: nat, size: nat, boundary: nat)
    requires Shape(size, boundary) && from < boundary && to < boundary
    requires Dist(from, to, boundary) <= size
    ensures CellOf(to, size) == Slot(CellOf(from, size), Dist(from, to, boundary), size)
  {
    AdvanceSlot(from, Dist(from, to, boundary), size, boundary);
  }

  /** After the application pointer moves it is in range, and so is its cell, across the boundary wrap. */
  lemma ApplForwardExact(appl: nat, frames: nat, size: nat, boundary: nat)
    requires Shape(size, boundary) && appl < boundary && frames <= size
    ensures ApplForward(appl, frames, boundary) == Advance(appl, frames, boundary)
    ensures ApplForward(appl, frames, boundary) == (appl + frames) % boundary
    ensures ApplForward(appl, frames, boundary) % size == (appl % size + frames) % size
  {
    var next := ApplForward(appl, frames, boundary);
    assert next == Advance(appl, frames, boundary);
    if appl + frames >= boundary {
      ModShift(appl + frames, boundary);
      ModInRange(appl + frames - boundary, boundary);
    } else {
      ModInRange(appl + frames, boundary);
    }
    CellIsRemainder(appl, size);
    CellIsRemainder(next, size);
    AdvanceSlot(appl, frames, size, boundary);
    var cell := appl % size + frames;
    if cell < size {
      ModInRange(cell, size);
    } else {
      ModShift(cell, size);
      ModInRange(cell - size, size);
    }
  }

  /** The `unsigned int` its callers make of the `int` that `pcm_mmap_avail` returns. */
  function AvailAsUnsigned(capture: bool, hw: nat, appl: nat, size: nat, boundary: nat): nat {
    ToUInt(ToInt(if capture then CaptureAvail(hw, appl, boundary) else PlaybackAvail(hw, appl, size, boundary)))
  }

  /** The clamping of `pcm_mmap_begin`: no more than wanted, than available, and than fits before the end of the buffer. */
  function Clamped(wanted: nat, avail: nat, offset: nat, size: nat): nat
    requires offset < size
  {
    var most := if avail > size then size else avail;
    var copy := if wanted > most then most else wanted;
    if copy > size - offset then size - offset else copy
  }

  /**
   For every pair of pointers, sound or not: what `pcm_mmap_begin` answers stays inside the buffer, is no more
   than is available by the pointers modulo `boundary`, and is the largest such count not above what is wanted.
   */
  lemma BeginBounds(capture: bool, hw: nat, appl: nat, size: nat, boundary: nat, wanted: nat)
    requires Shape(size, boundary) && hw < boundary && appl < boundary
    ensures var avail, offset := AvailAsUnsigned(capture, hw, appl, size, boundary), appl % size;
      var frames := Clamped(wanted, avail, offset, size);
      && offset + frames <= size && frames <= wanted
      && frames <= avail <= (if capture then (hw - appl) % boundary else (hw + size - appl) % boundary)
      && (frames == wanted || frames == avail || offset + frames == size)
  {
    CaptureAvailModulo(hw, appl, size, boundary);
    PlaybackAvailModulo(hw, appl, size, boundary);
    CellIsRemainder(appl, size);
    hide PlaybackAvail, CaptureAvail;
    var avail := if capture then CaptureAvail(hw, appl, boundary) else PlaybackAvail(hw, appl, size, boundary);
    ModNatural(hw - appl, boundary);
    ModNatural(hw + size - appl, boundary);
    UnsignedAtMost(avail);
  }

  lemma ModNatural(x: int, m: int)
    requires 0 < m
    ensures 0 <= x % m
  {
  }

  lemma UnsignedAtMost(x: int)
    requires 0 <= x
    ensures ToUInt(ToInt(x)) <= x
  {
  }
}
