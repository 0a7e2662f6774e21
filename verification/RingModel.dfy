/**
 The mmap ring as a machine over values: what the application, the kernel and
 the hardware may do to it, one step at a time, in any order.

 `fed` and `out` are histories of the current epoch (since the last PREPARE):
 the frames the producer put into the ring and the frames the consumer took.
 For playback the application feeds and the hardware takes; for capture it is
 the other way round. `appl` is the application's copy of its pointer and
 `kappl` the kernel's; `khw` is where the hardware is and `seen` the
 application's possibly old copy of it.
 */
module RingModel {
  import opened CTypes
  import opened RingPointers

  datatype Ring<T> = Ring(
    capture: bool,
    boundary: nat,
    cells: seq<T>,
    appl: nat,
    seen: nat,
    kappl: nat,
    khw: nat,
    stale: bool,
    fed: seq<T>,
    out: seq<T>)
  {
    /** What the application side has put in (playback) or taken out (capture). */
    function AppLog(): seq<T> {
      if capture then out else fed
    }

    /** The frames fed and not yet taken. */
    function Pending(): seq<T> {
      if |out| <= |fed| then fed[|out|..] else []
    }

    /** What the application may use: frames to read or room to write, going by the pointers it sees. */
    ghost function Avail(): int
      requires Shaped()
    {
      if capture then Dist(appl, seen, boundary) else |cells| - Dist(seen, appl, boundary)
    }

    ghost predicate Shaped() {
      && Shape(|cells|, boundary)
      && appl < boundary && seen < boundary && kappl < boundary && khw < boundary
    }

    /** The contiguous cells the application may use next, `n` of them. */
    ghost predicate Grants(n: nat) {
      && Shaped() && !stale
      && n <= Avail()
      && CellOf(appl, |cells|) + n <= |cells|
    }
  }

  /** The cells from `offset` on hold `q`, in order. */
  ghost predicate Holds<T>(cells: seq<T>, offset: nat, q: seq<T>) {
    && offset < |cells|
    && |q| <= |cells|
    && forall j {:trigger q[j]} :: 0 <= j < |q| ==> cells[Slot(offset, j, |cells|)] == q[j]
  }

  /** What keeps the kernel's half of the ring sound. */
  ghost predicate KernelInv<T>(r: Ring<T>)
    requires r.Shaped()
  {
    if r.capture then
      var unread := Dist(r.kappl, r.khw, r.boundary);
      && unread <= |r.fed|
      && |r.fed| - unread <= |r.out|
      && Holds(r.cells, CellOf(r.kappl, |r.cells|), r.fed[|r.fed| - unread..])
    else
      && Dist(r.khw, r.kappl, r.boundary) <= |r.Pending()|
      && Holds(r.cells, CellOf(r.khw, |r.cells|), r.Pending())
  }

  /** What ties the application's copies of the pointers to the kernel's. */
  ghost predicate UserInv<T>(r: Ring<T>)
    requires r.Shaped()
  {
    if r.capture then
      var unread := Dist(r.kappl, r.khw, r.boundary);
      if r.stale then
        |r.fed| - unread == |r.out|
      else
        && |r.fed| - unread + Dist(r.kappl, r.appl, r.boundary) == |r.out|
        && Dist(r.kappl, r.appl, r.boundary) <= Dist(r.kappl, r.seen, r.boundary) <= unread
    else
      if r.stale then
        Dist(r.khw, r.kappl, r.boundary) == |r.Pending()|
      else
        && Dist(r.khw, r.appl, r.boundary) == |r.Pending()|
        && |r.Pending()| <= Dist(r.seen, r.appl, r.boundary) <= |r.cells|
  }

  ghost predicate Inv<T>(r: Ring<T>) {
    r.Shaped() && r.out <= r.fed && KernelInv(r) && UserInv(r)
  }

  /** A ring as PREPARE and a successful SYNC_PTR leave it. */
  ghost predicate Fresh<T>(r: Ring<T>) {
    && r.Shaped() && !r.stale
    && r.appl == r.seen == r.kappl == r.khw
    && r.fed == r.out == []
  }

  datatype Step<T> =
    | Play                   // the hardware reads the cell it is at
    | Produce(frame: T)      // the hardware fills the cell it is at
    | Observe                // the application's copy of hw_ptr is refreshed
    | Share                  // mapped control: the kernel sees the application's pointer as it is written
    | Push                   // SYNC_PTR: the application's pointer goes to the kernel
    | Pull                   // SYNC_PTR with the APPL flag: the kernel's pointer comes back
    | Write(data: seq<T>)    // the application fills the cells it was granted
    | Forward(n: nat)        // pcm_mmap_appl_forward
    | Prepare                // PREPARE: the kernel drops what is in the ring

  /** The steps the two sides may take. The hardware never passes the kernel's application pointer: no xrun. */
  ghost predicate Enabled<T>(r: Ring<T>, s: Step<T>) {
    r.Shaped() &&
    match s
    case Play => !r.capture && r.khw != r.kappl
    case Produce(_) => r.capture && Dist(r.kappl, r.khw, r.boundary) < |r.cells|
    case Observe => !r.stale
    case Share => !r.stale
    case Push => !r.stale
    case Pull => true
    case Write(data) => !r.capture && r.Grants(|data|)
    case Forward(n) => r.Grants(n)
    case Prepare => true
  }

  /** How much of the application's log the kernel has been told of. */
  ghost function KnownToKernel<T>(r: Ring<T>): int
    requires r.Shaped()
  {
    if r.capture then |r.fed| - Dist(r.kappl, r.khw, r.boundary)
    else |r.out| + Dist(r.khw, r.kappl, r.boundary)
  }

  ghost function Next<T>(r: Ring<T>, s: Step<T>): Ring<T>
    requires Enabled(r, s)
  {
    var size := |r.cells|;
    match s
    case Play =>
      r.(out := r.out + [r.cells[CellOf(r.khw, size)]], khw := Advance(r.khw, 1, r.boundary))
    case Produce(x) =>
      r.(cells := r.cells[CellOf(r.khw, size) := x], fed := r.fed + [x], khw := Advance(r.khw, 1, r.boundary))
    case Observe =>
      r.(seen := r.khw)
    case Share =>
      r.(kappl := r.appl)
    case Push =>
      r.(kappl := r.appl, seen := r.khw)
    case Pull =>
      var pulled := r.(appl := r.kappl, seen := r.khw, stale := false);
      var known := KnownToKernel(r);
      if !(0 <= known <= |r.AppLog()|) then pulled
      else if r.capture then pulled.(out := r.out[..known]) else pulled.(fed := r.fed[..known])
    case Write(data) =>
      var offset := CellOf(r.appl, size);
      r.(cells := r.cells[..offset] + data + r.cells[offset + |data|..])
    case Forward(n) =>
      var offset := CellOf(r.appl, size);
      var moved := r.(appl := Advance(r.appl, n, r.boundary));
      if r.capture then moved.(out := r.out + r.cells[offset..offset + n])
      else moved.(fed := r.fed + r.cells[offset..offset + n])
    case Prepare =>
      r.(kappl := r.khw, fed := [], out := [], stale := true)
  }

  // ---------------------------------------------------------------- queues of cells

  /** Dropping the `n` oldest frames moves the start `n` cells on. */
  lemma HoldsDrop<T>(cells: seq<T>, offset: nat, fed: seq<T>, start: nat, n: nat)
    requires start + n <= |fed| && Holds(cells, offset, fed[start..])
    ensures Holds(cells, Slot(offset, n, |cells|), fed[start + n..])
  {
    forall j | 0 <= j < |fed[start + n..]|
      ensures cells[Slot(Slot(offset, n, |cells|), j, |cells|)] == fed[start + n..][j]
    {
      assert cells[Slot(offset, n + j, |cells|)] == fed[start..][n + j];
    }
  }

  /** A stretch of the frames from `start` on that does not wrap is a slice of the cells. */
  lemma HoldsSlice<T>(cells: seq<T>, offset: nat, fed: seq<T>, start: nat, skip: nat, n: nat)
    requires start + skip + n <= |fed| && Holds(cells, offset, fed[start..])
    requires Slot(offset, skip, |cells|) + n <= |cells|
    ensures cells[Slot(offset, skip, |cells|)..Slot(offset, skip, |cells|) + n] == fed[start + skip..start + skip + n]
  {
    var at := Slot(offset, skip, |cells|);
    var slice, frames := cells[at..at + n], fed[start + skip..start + skip + n];
    forall j | 0 <= j < n
      ensures slice[j] == frames[j]
    {
      assert cells[Slot(offset, skip + j, |cells|)] == fed[start..][skip + j];
    }
  }

  /** Frames appended at the cell after the last one extend the queue and disturb nothing in it. */
  lemma HoldsAppend<T>(cells: seq<T>, offset: nat, q: seq<T>, at: nat, data: seq<T>)
    requires Holds(cells, offset, q)
    requires |q| + |data| <= |cells|
    requires at == Slot(offset, |q|, |cells|) && at + |data| <= |cells|
    ensures Holds(cells[..at] + data + cells[at + |data|..], offset, q + data)
  {
    var cells' := cells[..at] + data + cells[at + |data|..];
    forall j | 0 <= j < |q + data|
      ensures cells'[Slot(offset, j, |cells'|)] == (q + data)[j]
    {
      if j < |q| {
        assert cells[Slot(offset, j, |cells|)] == q[j];
      }
    }
  }

  lemma HoldsAppendLast<T>(cells: seq<T>, offset: nat, fed: seq<T>, start: nat, at: nat, x: T)
    requires start <= |fed| && Holds(cells, offset, fed[start..])
    requires |fed| - start < |cells| && at == Slot(offset, |fed| - start, |cells|)
    ensures Holds(cells[at := x], offset, (fed + [x])[start..])
  {
    HoldsAppend(cells, offset, fed[start..], at, [x]);
    assert cells[at := x] == cells[..at] + [x] + cells[at + 1..];
    assert (fed + [x])[start..] == fed[start..] + [x];
  }

  // ---------------------------------------------------------------- each step keeps the invariant

  lemma PlayKeepsInv<T>(r: Ring<T>)
    requires Inv(r) && Enabled(r, Play)
    ensures Inv(Next(r, Play))
    ensures Next(r, Play).out == r.fed[..|r.out| + 1]
  {
    hide CellOf;
    assert r.cells[Slot(CellOf(r.khw, |r.cells|), 0, |r.cells|)] == r.Pending()[0];
    HoldsDrop(r.cells, CellOf(r.khw, |r.cells|), r.fed, |r.out|, 1);
    AdvanceSlot(r.khw, 1, |r.cells|, r.boundary);
  }

  lemma ProduceKeepsInv<T>(r: Ring<T>, x: T)
    requires Inv(r) && Enabled(r, Produce(x))
    ensures Inv(Next(r, Produce(x)))
  {
    hide CellOf;
    var unread := Dist(r.kappl, r.khw, r.boundary);
    DistSlot(r.kappl, r.khw, |r.cells|, r.boundary);
    HoldsAppendLast(r.cells, CellOf(r.kappl, |r.cells|), r.fed, |r.fed| - unread, CellOf(r.khw, |r.cells|), x);
    assert Dist(r.kappl, Advance(r.khw, 1, r.boundary), r.boundary) == unread + 1;
  }

  lemma ShareKeepsInv<T>(r: Ring<T>)
    requires Inv(r) && Enabled(r, Share)
    ensures Inv(Next(r, Share))
  {
    hide CellOf;
    if r.capture {
      var unread := Dist(r.kappl, r.khw, r.boundary);
      var back := Dist(r.kappl, r.appl, r.boundary);
      HoldsDrop(r.cells, CellOf(r.kappl, |r.cells|), r.fed, |r.fed| - unread, back);
      DistSlot(r.kappl, r.appl, |r.cells|, r.boundary);
    }
  }

  lemma PushKeepsInv<T>(r: Ring<T>)
    requires Inv(r) && Enabled(r, Push)
    ensures Inv(Next(r, Push))
  {
    hide CellOf, Holds;
    ShareKeepsInv(r);
    assert Next(r, Push) == Next(Next(r, Share), Observe);
  }

  lemma PullKeepsInv<T>(r: Ring<T>)
    requires Inv(r)
    ensures Enabled(r, Pull) && Inv(Next(r, Pull))
    ensures 0 <= KnownToKernel(r) <= |r.AppLog()|
    ensures Next(r, Pull).AppLog() == r.AppLog()[..KnownToKernel(r)]
  {
    var r' := Next(r, Pull);
    if r.capture {
      assert r'.out <= r.out <= r.fed;
    } else {
      assert r'.Pending() == r.Pending()[..|r'.Pending()|];
      forall j | 0 <= j < |r'.Pending()|
        ensures r.cells[Slot(CellOf(r.khw, |r.cells|), j, |r.cells|)] == r'.Pending()[j]
      {
        assert r.cells[Slot(CellOf(r.khw, |r.cells|), j, |r.cells|)] == r.Pending()[j];
      }
    }
  }

  /** In a sound ring what the application counts as available is real, and never more than a ring. */
  lemma AvailIsSound<T>(r: Ring<T>)
    requires Inv(r) && !r.stale
    ensures 0 <= r.Avail() <= |r.cells|
    ensures r.capture ==> |r.out| + r.Avail() <= |r.fed|
    ensures !r.capture ==> r.Avail() <= |r.cells| - |r.Pending()|
    ensures r.seen == r.khw ==> r.Avail() == if r.capture then |r.Pending()| else |r.cells| - |r.Pending()|
  {
  }

  lemma WriteKeepsInv<T>(r: Ring<T>, data: seq<T>)
    requires Inv(r) && Enabled(r, Write(data))
    ensures Inv(Next(r, Write(data)))
    // the cells written lie after the pending frames
    ensures Holds(Next(r, Write(data)).cells, CellOf(r.khw, |r.cells|), r.Pending() + data)
  {
    hide CellOf;
    var r' := Next(r, Write(data));
    AvailIsSound(r);
    DistSlot(r.khw, r.appl, |r.cells|, r.boundary);
    HoldsAppend(r.cells, CellOf(r.khw, |r.cells|), r.Pending(), CellOf(r.appl, |r.cells|), data);
    HoldsPrefix(r'.cells, CellOf(r.khw, |r.cells|), r.Pending(), data);
    PlaybackCells(r, r');
  }

  lemma HoldsPrefix<T>(cells: seq<T>, offset: nat, q: seq<T>, more: seq<T>)
    requires Holds(cells, offset, q + more)
    ensures Holds(cells, offset, q)
  {
    forall j | 0 <= j < |q|
      ensures cells[Slot(offset, j, |cells|)] == q[j]
    {
      assert (q + more)[j] == q[j];
    }
  }

  lemma PlaybackCells<T>(r: Ring<T>, r': Ring<T>)
    requires Inv(r) && !r.capture
    requires r' == r.(cells := r'.cells) && |r'.cells| == |r.cells|
    requires Holds(r'.cells, CellOf(r.khw, |r.cells|), r.Pending())
    ensures Inv(r')
  {
  }

  lemma ForwardKeepsInv<T>(r: Ring<T>, n: nat)
    requires Inv(r) && Enabled(r, Forward(n))
    ensures Inv(Next(r, Forward(n)))
    ensures r.capture ==> Next(r, Forward(n)).out == r.fed[..|r.out| + n]
  {
    if r.capture {
      CaptureForward(r, n);
    } else {
      PlaybackForward(r, n);
    }
  }

  lemma CaptureForward<T>(r: Ring<T>, n: nat)
    requires Inv(r) && Enabled(r, Forward(n)) && r.capture
    ensures Inv(Next(r, Forward(n)))
    ensures Next(r, Forward(n)).out == r.fed[..|r.out| + n]
  {
    hide CellOf;
    GrantIsUnread(r, n);
    assert r.out + r.fed[|r.out|..|r.out| + n] == r.fed[..|r.out| + n];
    ReadOn(r, n, Next(r, Forward(n)));
  }

  lemma PlaybackForward<T>(r: Ring<T>, n: nat)
    requires Inv(r) && Enabled(r, Forward(n)) && !r.capture
    ensures Inv(Next(r, Forward(n)))
  {
    hide CellOf;
    GrantIsRoom(r, n);
    FeedOn(r, n, Next(r, Forward(n)));
  }

  /** The frames granted to a capture application are the oldest unread ones. */
  lemma GrantIsUnread<T>(r: Ring<T>, n: nat)
    requires Inv(r) && r.capture && r.Grants(n)
    ensures |r.out| + n <= |r.fed|
    ensures r.cells[CellOf(r.appl, |r.cells|)..CellOf(r.appl, |r.cells|) + n] == r.fed[|r.out|..|r.out| + n]
  {
    hide CellOf;
    var unread := Dist(r.kappl, r.khw, r.boundary);
    var back := Dist(r.kappl, r.appl, r.boundary);
    DistSlot(r.kappl, r.appl, |r.cells|, r.boundary);
    HoldsSlice(r.cells, CellOf(r.kappl, |r.cells|), r.fed, |r.fed| - unread, back, n);
  }

  lemma ReadOn<T>(r: Ring<T>, n: nat, r': Ring<T>)
    requires Inv(r) && !r.stale && r.capture
    requires n <= Dist(r.appl, r.seen, r.boundary) && |r.out| + n <= |r.fed|
    requires r' == r.(appl := Advance(r.appl, n, r.boundary), out := r.fed[..|r.out| + n])
    ensures Inv(r')
  {
    hide CellOf;
  }

  lemma RoomFollows<T>(r: Ring<T>)
    requires Inv(r) && !r.capture && !r.stale
    ensures |r.Pending()| <= |r.cells| && Holds(r.cells, CellOf(r.khw, |r.cells|), r.Pending())
    ensures CellOf(r.appl, |r.cells|) == Slot(CellOf(r.khw, |r.cells|), |r.Pending()|, |r.cells|)
  {
    hide CellOf, Holds, Slot;
    DistSlot(r.khw, r.appl, |r.cells|, r.boundary);
  }

  /** The cells granted to a playback application follow the pending frames. */
  lemma GrantIsRoom<T>(r: Ring<T>, n: nat)
    requires Inv(r) && !r.capture && r.Grants(n)
    ensures |r.Pending()| + n <= |r.cells|
    ensures Holds(r.cells, CellOf(r.khw, |r.cells|), r.Pending() + r.cells[CellOf(r.appl, |r.cells|)..CellOf(r.appl, |r.cells|) + n])
  {
    var at := CellOf(r.appl, |r.cells|);
    RoomFollows(r);
    hide CellOf, Inv, Dist, Holds, Slot, Ring.Avail;
    AvailIsSound(r);
    HoldsAppend(r.cells, CellOf(r.khw, |r.cells|), r.Pending(), at, r.cells[at..at + n]);
    assert r.cells[..at] + r.cells[at..at + n] + r.cells[at + n..] == r.cells;
  }

  lemma FeedOn<T>(r: Ring<T>, n: nat, r': Ring<T>)
    requires Inv(r) && !r.stale && !r.capture
    requires n + Dist(r.seen, r.appl, r.boundary) <= |r.cells|
    requires r.fed <= r'.fed && |r'.fed| == |r.fed| + n
    requires r' == r.(appl := Advance(r.appl, n, r.boundary), fed := r'.fed)
    requires Holds(r.cells, CellOf(r.khw, |r.cells|), r.Pending() + r'.fed[|r.fed|..])
    ensures Inv(r')
  {
    hide CellOf;
    assert r'.Pending() == r.Pending() + r'.fed[|r.fed|..];
  }

  lemma StepKeepsInv<T>(r: Ring<T>, s: Step<T>)
    requires Inv(r) && Enabled(r, s)
    ensures Inv(Next(r, s))
  {
    match s
    case Play => PlayKeepsInv(r);
    case Produce(x) => ProduceKeepsInv(r, x);
    case Observe =>
    case Share => ShareKeepsInv(r);
    case Push => PushKeepsInv(r);
    case Pull => PullKeepsInv(r);
    case Write(data) => WriteKeepsInv(r, data);
    case Forward(n) => ForwardKeepsInv(r, n);
    case Prepare =>
  }

  // ---------------------------------------------------------------- whole runs

  ghost predicate Legal<T>(r: Ring<T>, run: seq<Step<T>>)
    decreases |run|, 0
  {
    run == [] || (Legal(r, run[..|run| - 1]) && Enabled(After(r, run[..|run| - 1]), run[|run| - 1]))
  }

  ghost function After<T>(r: Ring<T>, run: seq<Step<T>>): Ring<T>
    requires Legal(r, run)
    decreases |run|, 1
  {
    if run == [] then r else Next(After(r, run[..|run| - 1]), run[|run| - 1])
  }

  lemma FreshIsSound<T>(r: Ring<T>)
    requires Fresh(r)
    ensures Inv(r) && InStep(r) && Legal(r, []) && After(r, []) == r
  {
    hide Legal, After, Holds;
    assert Legal(r, []) && After(r, []) == r by {
      EmptyRun(r);
    }
    HoldsNothing(r.cells, CellOf(r.khw, |r.cells|), r.Pending());
    assert r.fed[|r.fed|..] == r.Pending();
  }

  lemma EmptyRun<T>(r: Ring<T>)
    ensures Legal(r, []) && After(r, []) == r
  {
  }

  lemma HoldsNothing<T>(cells: seq<T>, offset: nat, q: seq<T>)
    requires offset < |cells| && q == []
    ensures Holds(cells, offset, q)
  {
  }

  lemma RunExtends<T>(r: Ring<T>, run: seq<Step<T>>, s: Step<T>)
    requires Legal(r, run) && Enabled(After(r, run), s)
    ensures Legal(r, run + [s]) && After(r, run + [s]) == Next(After(r, run), s)
  {
    assert (run + [s])[..|run|] == run;
  }

  lemma {:induction false} RunKeepsInv<T>(r: Ring<T>, run: seq<Step<T>>)
    requires Inv(r) && Legal(r, run)
    ensures Inv(After(r, run))
  {
    if run != [] {
      var init := run[..|run| - 1];
      RunKeepsInv(r, init);
      StepKeepsInv(After(r, init), run[|run| - 1]);
    }
  }

  /**
   First in, first out, whatever the interleaving: in every state of every run
   the frames taken out are a prefix of the frames put in, and every frame not
   yet taken is still in its cell.
   */
  lemma RunIsFifo<T>(r: Ring<T>, run: seq<Step<T>>)
    requires Fresh(r) && Legal(r, run)
    ensures var r' := After(r, run);
      && r'.out <= r'.fed
      && |r'.Pending()| <= |r'.cells|
      && (!r'.capture ==> Holds(r'.cells, CellOf(r'.khw, |r'.cells|), r'.Pending()))
      && (r'.capture && !r'.stale ==> Holds(r'.cells, CellOf(r'.appl, |r'.cells|), r'.Pending()))
  {
    RunKeepsInv(r, run);
    var r' := After(r, run);
    if r'.capture {
      var unread := Dist(r'.kappl, r'.khw, r'.boundary);
      if !r'.stale {
        var back := Dist(r'.kappl, r'.appl, r'.boundary);
        DistSlot(r'.kappl, r'.appl, |r'.cells|, r'.boundary);
        HoldsDrop(r'.cells, CellOf(r'.kappl, |r'.cells|), r'.fed, |r'.fed| - unread, back);
      }
    }
  }

  /** The hardware plays exactly the committed frame that is due, read from the ring. */
  lemma PlaysTheNextFrame<T>(r: Ring<T>, run: seq<Step<T>>)
    requires Fresh(r) && Legal(r, run) && Enabled(After(r, run), Play)
    ensures var r' := After(r, run);
      && |r'.out| < |r'.fed|
      && r'.cells[CellOf(r'.khw, |r'.cells|)] == r'.fed[|r'.out|]
  {
    RunKeepsInv(r, run);
    var r' := After(r, run);
    assert r'.cells[Slot(CellOf(r'.khw, |r'.cells|), 0, |r'.cells|)] == r'.Pending()[0];
  }

  /**
   Were the hardware to produce into a full ring, the frame the application
   reads next would be the one it is owed only by coincidence: the default stop
   threshold of a capture stream, ten buffers, does not rule that out.
   */
  lemma OverrunLosesTheOldest<T>(r: Ring<T>, x: T)
    requires Inv(r) && r.capture && !r.stale && r.kappl == r.appl
    requires Dist(r.kappl, r.khw, r.boundary) == |r.cells|
    ensures |r.out| < |r.fed| && r.cells[CellOf(r.appl, |r.cells|)] == r.fed[|r.out|]
    ensures r.cells[CellOf(r.khw, |r.cells|) := x][CellOf(r.appl, |r.cells|)] == r.fed[|r.out|] <==> x == r.fed[|r.out|]
  {
    DistSlot(r.kappl, r.khw, |r.cells|, r.boundary);
    assert r.cells[Slot(CellOf(r.kappl, |r.cells|), 0, |r.cells|)] == r.fed[|r.out|..][0];
  }

  // ---------------------------------------------------------------- what a library call does not see

  /** The frames the next `n` the application moves are. */
  ghost function NextFrames<T>(r: Ring<T>, n: nat): seq<T>
    requires r.Grants(n) && (r.capture ==> |r.out| + n <= |r.fed|)
  {
    if r.capture then r.fed[|r.out|..|r.out| + n]
    else r.cells[CellOf(r.appl, |r.cells|)..CellOf(r.appl, |r.cells|) + n]
  }

  /** From `r` to `r'` only the hardware moved, and pointers were exchanged. */
  ghost predicate Quiet<T>(r: Ring<T>, r': Ring<T>) {
    && r.Shaped() && r'.Shaped()
    && r'.capture == r.capture && r'.boundary == r.boundary && |r'.cells| == |r.cells|
    && r'.appl == r.appl && r'.stale == r.stale
    && (r'.kappl == r.kappl || r'.kappl == r'.appl)
    && r'.AppLog() == r.AppLog()
    && (r.capture ==> r.fed <= r'.fed)
    && (!r.capture ==> r'.cells == r.cells && r.out <= r'.out)
    && (!r.stale ==> r.Avail() <= r'.Avail())
  }

  lemma QuietTransitive<T>(r: Ring<T>, r': Ring<T>, r'': Ring<T>)
    requires Quiet(r, r') && Quiet(r', r'')
    ensures Quiet(r, r'')
  {
  }

  lemma QuietFacts<T>(r: Ring<T>, r': Ring<T>)
    requires Quiet(r, r')
    ensures r'.AppLog() == r.AppLog() && r'.appl == r.appl && r'.stale == r.stale
    ensures r.Shaped() && r'.Shaped() && (!r.stale ==> r.Avail() <= r'.Avail())
    ensures InStep(r) ==> InStep(r')
  {
  }

  lemma QuietStep<T>(r: Ring<T>, s: Step<T>)
    requires Inv(r) && Enabled(r, s) && (s.Play? || s.Produce? || s.Observe? || s.Share? || s.Push?)
    ensures Quiet(r, Next(r, s))
  {
  }

  /** The two copies of the application pointer agree. */
  predicate InStep<T>(r: Ring<T>) {
    !r.stale && r.kappl == r.appl
  }

  /** Pulling back a pointer the kernel already has changes nothing the application sees. */
  lemma PullInStep<T>(r: Ring<T>)
    requires Inv(r) && InStep(r)
    ensures Enabled(r, Pull) && Quiet(r, Next(r, Pull))
  {
    PullKeepsInv(r);
    assert KnownToKernel(r) == |r.AppLog()|;
    assert r.AppLog()[..KnownToKernel(r)] == r.AppLog();
  }

  /** What SYNC_PTR leaves when it brings the kernel's pointer back. */
  lemma PullResult<T>(r: Ring<T>) returns (r': Ring<T>)
    requires Inv(r)
    ensures Enabled(r, Pull) && r' == Next(r, Pull)
    ensures Inv(r') && InStep(r') && r'.AppLog() <= r.AppLog()
    ensures r' == r.(appl := r.kappl, seen := r.khw, stale := false, fed := r'.fed, out := r'.out)
    ensures InStep(r) ==> Quiet(r, r')
  {
    r' := Next(r, Pull);
    PullKeepsInv(r);
    if InStep(r) {
      PullInStep(r);
    }
  }

  /** What SYNC_PTR leaves when it sends the application's pointer. */
  lemma PushResult<T>(r: Ring<T>) returns (r': Ring<T>)
    requires Inv(r) && !r.stale
    ensures Enabled(r, Push) && r' == Next(r, Push) == r.(kappl := r.appl, seen := r.khw)
    ensures Inv(r') && InStep(r') && Quiet(r, r')
  {
    r' := Next(r, Push);
    PushKeepsInv(r);
    QuietStep(r, Push);
  }

  /** What writing the pointer into mapped control leaves. */
  lemma ShareResult<T>(r: Ring<T>) returns (r': Ring<T>)
    requires Inv(r) && !r.stale
    ensures Enabled(r, Share) && r' == Next(r, Share) == r.(kappl := r.appl)
    ensures Inv(r') && InStep(r') && Quiet(r, r')
  {
    r' := Next(r, Share);
    ShareKeepsInv(r);
    QuietStep(r, Share);
  }

  lemma QuietKeepsGrant<T>(r: Ring<T>, r': Ring<T>, n: nat)
    requires Inv(r) && Inv(r') && Quiet(r, r') && r.Grants(n)
    ensures r'.Grants(n)
    ensures r.capture ==> |r.out| + n <= |r.fed|
    ensures NextFrames(r', n) == NextFrames(r, n)
  {
    hide Inv, CellOf, Dist;
    AvailIsSound(r);
  }

  /** What the application computes from its copies of the pointers is `Avail`. */
  lemma AvailIsComputed<T>(r: Ring<T>)
    requires Inv(r) && !r.stale
    ensures r.capture ==> CaptureAvail(r.seen, r.appl, r.boundary) == r.Avail()
    ensures !r.capture ==> PlaybackAvail(r.seen, r.appl, |r.cells|, r.boundary) == r.Avail()
  {
    if r.capture {
      CaptureAvailModulo(r.seen, r.appl, |r.cells|, r.boundary);
    } else {
      PlaybackAvailIsRoom(r.seen, r.appl, |r.cells|, r.boundary);
    }
  }

  /**
   Frames written into a grant and then committed join the stream as they are,
   whatever the hardware does in between; frames read from a grant and then
   released are the ones taken out.
   */
  lemma CommitAppends<T>(r: Ring<T>, r': Ring<T>, n: nat)
    requires Inv(r) && r.Grants(n) && Inv(r') && Quiet(r, r')
    ensures r.capture ==> |r.out| + n <= |r.fed|
    ensures Enabled(r', Forward(n))
    ensures Next(r', Forward(n)).AppLog() == r.AppLog() + NextFrames(r, n)
  {
    hide Inv, CellOf, Dist;
    QuietKeepsGrant(r, r', n);
    if r.capture {
      ForwardKeepsInv(r', n);
      assert r'.fed[..|r'.out| + n] == r'.out + r'.fed[|r'.out|..|r'.out| + n];
    }
  }

  lemma ForwardUsesAvail<T>(r: Ring<T>, n: nat)
    requires Enabled(r, Forward(n)) && n <= |r.cells|
    ensures Next(r, Forward(n)).Avail() == r.Avail() - n
  {
  }

  /** What moving the application pointer over a grant leaves. */
  lemma ForwardResult<T>(r: Ring<T>, n: nat) returns (r': Ring<T>)
    requires Inv(r) && r.Grants(n) && n <= |r.cells| && (r.capture ==> |r.out| + n <= |r.fed|)
    ensures Enabled(r, Forward(n)) && r' == Next(r, Forward(n))
    ensures Inv(r') && r'.Shaped() && !r'.stale && r'.Avail() == r.Avail() - n
    ensures r' == r.(appl := Advance(r.appl, n, r.boundary), fed := r'.fed, out := r'.out)
    ensures r'.AppLog() == r.AppLog() + NextFrames(r, n)
  {
    r' := Next(r, Forward(n));
    ForwardKeepsInv(r, n);
    ForwardUsesAvail(r, n);
    CommitAppends(r, r, n);
  }

  /** What filling granted cells leaves. */
  lemma WriteResult<T>(r: Ring<T>, data: seq<T>) returns (r': Ring<T>)
    requires Inv(r) && !r.capture && r.Grants(|data|)
    ensures Enabled(r, Write(data)) && r' == Next(r, Write(data)) && Inv(r')
    ensures r' == r.(cells := r'.cells) && r'.Grants(|data|) && NextFrames(r', |data|) == data
    ensures var at := CellOf(r.appl, |r.cells|);
      at + |data| <= |r.cells| && r'.cells == r.cells[..at] + data + r.cells[at + |data|..]
  {
    hide Inv, CellOf, Dist;
    r' := Next(r, Write(data));
    WriteKeepsInv(r, data);
  }

  /** What PREPARE leaves; the application's own pointers are not touched by it. */
  lemma PrepareResult<T>(r: Ring<T>) returns (r': Ring<T>)
    requires Inv(r)
    ensures Enabled(r, Prepare) && r' == Next(r, Prepare) && Inv(r')
    ensures r' == r.(kappl := r.khw, fed := [], out := [], stale := true)
  {
    r' := Next(r, Prepare);
    StepKeepsInv(r, Prepare);
  }

  lemma PullEmpty<T>(r: Ring<T>)
    requires Inv(r) && r.fed == r.out == [] && Enabled(r, Pull)
    ensures Next(r, Pull).fed == Next(r, Pull).out == []
  {
    PullKeepsInv(r);
  }
}
