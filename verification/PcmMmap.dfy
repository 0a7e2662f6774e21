/**
 The mmap transfer path of `src/pcm.c` over a ring shared with the kernel.

 Every library step is followed by `HardwareRuns`, in which the hardware may
 move any distance the kernel's pointers allow and the kernel state may change,
 so the contracts hold for every interleaving. Each change of the shared state
 is a `RingModel` step and is recorded in `trace`: whatever the class does is a
 run of that machine.
 */
module PcmMmap {
  import opened CTypes
  import opened RingPointers
  import opened RingModel

  datatype PcmState = Open | Setup | Prepared | Running | Xrun | Draining | Suspended | Disconnected

  datatype Errno = EAGAIN | EPIPE | ESTRPIPE | ENODEV | EIO | OtherErrno

  /** A call either returns an `int` or is still waiting when the model stops watching it. */
  datatype Outcome = Returned(n: int) | Unfinished

  /** One pass of the restart loop: what the transfer returned and `errno`. */
  datatype Attempt = Attempt(res: int, errno: Errno)

  const EINVAL := 22

  predicate IsEpipe(a: Attempt) {
    a.res < 0 && a.errno == EPIPE
  }

  ghost function CountEpipe(attempts: seq<Attempt>): nat {
    if attempts == [] then 0
    else CountEpipe(attempts[..|attempts| - 1]) + (if IsEpipe(attempts[|attempts| - 1]) then 1 else 0)
  }

  /** Transfers that reported nothing and whose failure is one the library restarts after. */
  ghost predicate Restartable(attempts: seq<Attempt>) {
    forall a :: a in attempts ==> a.res == -1 && a.errno in {EPIPE, ESTRPIPE}
  }

  lemma RestartableMore(attempts: seq<Attempt>, more: seq<Attempt>)
    requires Restartable(attempts) && |more| <= 1
    ensures attempts + more != [] ==> Restartable((attempts + more)[..|attempts + more| - 1])
    ensures Restartable(more) ==> Restartable(attempts + more)
    ensures Restartable(attempts + more) ==> Restartable(more)
  {
    assert forall a :: a in more ==> a in attempts + more;
    if |more| == 1 {
      assert (attempts + more)[..|attempts + more| - 1] == attempts;
    }
  }

  ghost function Joined(attempts: seq<Attempt>, more: seq<Attempt>): seq<Attempt> {
    attempts + more
  }

  /** The tally after one more transfer, if it returned. */
  lemma JoinedFacts(attempts: seq<Attempt>, more: seq<Attempt>)
    requires Restartable(attempts) && |more| <= 1
    ensures var joined := Joined(attempts, more);
      && |joined| == |attempts| + |more|
      && CountEpipe(joined) == CountEpipe(attempts) + (if |more| == 1 && IsEpipe(more[0]) then 1 else 0)
      && (joined != [] ==> Restartable(joined[..|joined| - 1]))
      && (Restartable(joined) <==> Restartable(more))
  {
    CountEpipeMore(attempts, more);
    RestartableMore(attempts, more);
  }

  lemma JoinedIs(a: seq<Attempt>, b: seq<Attempt>)
    ensures Joined(a, b) == a + b && (b == [] ==> Joined(a, b) == a)
  {
  }

  lemma JoinedTwice(a: seq<Attempt>, b: seq<Attempt>, c: seq<Attempt>)
    ensures Joined(a, b) + c == Joined(a, Joined(b, c))
    ensures |c| == 1 ==> Joined(b, c) != [] && Joined(b, c)[|Joined(b, c)| - 1] == c[0]
  {
  }

  /** The count is that of the transfers that failed with EPIPE, each once. */
  lemma {:induction false} CountEpipeAdds(a: seq<Attempt>, b: seq<Attempt>)
    ensures CountEpipe(a + b) == CountEpipe(a) + CountEpipe(b)
    ensures |b| == 1 ==> CountEpipe(b) == if b[0].res < 0 && b[0].errno == EPIPE then 1 else 0
  {
    if b == [] {
      assert a + b == a;
    } else {
      CountEpipeAdds(a, b[..|b| - 1]);
      assert (a + b)[..|a + b| - 1] == a + b[..|b| - 1];
    }
  }

  lemma AttemptIs(res: int, errno: Errno)
    ensures Restartable([Attempt(res, errno)]) <==> res == -1 && errno in {EPIPE, ESTRPIPE}
    ensures IsEpipe(Attempt(res, errno)) <==> res < 0 && errno == EPIPE
  {
    assert Attempt(res, errno) in [Attempt(res, errno)];
  }

  lemma RestartableInit(attempts: seq<Attempt>)
    requires Restartable(attempts)
    ensures attempts != [] ==> Restartable(attempts[..|attempts| - 1])
  {
  }

  lemma NoAttempts()
    ensures CountEpipe([]) == 0 && Restartable([])
  {
  }

  lemma CountEpipeMore(attempts: seq<Attempt>, more: seq<Attempt>)
    requires |more| <= 1
    ensures CountEpipe(attempts + more) == CountEpipe(attempts) + (if |more| == 1 && IsEpipe(more[0]) then 1 else 0)
  {
    if |more| == 1 {
      assert (attempts + more)[..|attempts|] == attempts;
    } else {
      assert attempts + more == attempts;
    }
  }

  /** `memcpy` of `n` frames between two buffers. */
  method CopyFrames<T>(dst: array<T>, at: nat, src: array<T>, from: nat, n: nat)
    requires dst != src && at + n <= dst.Length && from + n <= src.Length
    modifies dst
    ensures dst[..] == old(dst[..at]) + src[from..from + n] + old(dst[at + n..])
  {
    forall i | 0 <= i < n {
      dst[at + i] := src[from + i];
    }
  }

  /**
   From `buf0` with history `log0` to `buf` with history `log`, exactly the
   frames of `buf` between `from` and `to` were moved, and nothing else of it changed.
   */
  ghost predicate Moved<T>(log0: seq<T>, buf0: seq<T>, log: seq<T>, buf: seq<T>, from: nat, to: nat) {
    && from <= to <= |buf| == |buf0|
    && log == log0 + buf[from..to]
    && buf[..from] == buf0[..from]
    && buf[to..] == buf0[to..]
  }

  lemma MovedNothing<T>(log: seq<T>, buf: seq<T>, at: nat)
    requires at <= |buf|
    ensures Moved(log, buf, log, buf, at, at)
  {
  }

  lemma MovedFromStart<T>(log0: seq<T>, buf0: seq<T>, log: seq<T>, buf: seq<T>, n: nat)
    requires Moved(log0, buf0, log, buf, 0, n)
    ensures n <= |buf| && log == log0 + buf[..n]
  {
  }

  lemma MovedOn<T>(log0: seq<T>, buf0: seq<T>, log1: seq<T>, buf1: seq<T>, log2: seq<T>, buf2: seq<T>,
                   from: nat, mid: nat, to: nat)
    requires Moved(log0, buf0, log1, buf1, from, mid) && Moved(log1, buf1, log2, buf2, mid, to)
    ensures Moved(log0, buf0, log2, buf2, from, to)
  {
    assert buf2[from..mid] == buf2[..mid][from..] == buf1[..mid][from..] == buf1[from..mid];
    assert buf2[from..to] == buf2[from..mid] + buf2[mid..to];
    assert buf2[..from] == buf2[..mid][..from] == buf1[..mid][..from] == buf1[..from];
    assert buf1[to..] == buf1[mid..][to - mid..] == buf0[mid..][to - mid..] == buf0[to..];
  }

  datatype Kernel = Kernel(hw: nat, state: PcmState, moves: nat)

  /** Only in these states does the hardware move. */
  predicate Busy(state: PcmState) {
    state == Running || state == Draining
  }

  /** The state stays as it is, and with it a hardware that is not busy, unless it changes on the kernel's own account. */
  ghost predicate Calm(before: Kernel, after: Kernel) {
    && before.moves <= after.moves
    && (after.moves == before.moves ==> after.state == before.state && (!Busy(before.state) ==> after == before))
  }

  lemma CalmTransitive(a: Kernel, b: Kernel, c: Kernel)
    requires Calm(a, b) && Calm(b, c)
    ensures Calm(a, c)
  {
  }

  lemma CalmItself(a: Kernel)
    ensures Calm(a, a)
  {
  }

  lemma CalmIfBusy(a: Kernel)
    ensures Busy(a.state) ==> forall b: Kernel :: a.moves <= b.moves && a.state == b.state ==> Calm(a, b)
  {
  }

  lemma CalmMoves(a: Kernel, b: Kernel)
    requires Calm(a, b)
    ensures a.moves <= b.moves && (a.moves == b.moves ==> a.state == b.state && (!Busy(a.state) ==> a == b))
  {
  }

  class Pcm<T(0)> {
    // how the stream was opened
    const capture: bool
    const mapped: bool          // status and control are mmapped (sync_ptr == NULL)
    const nonblock: bool
    const norestart: bool
    const startThreshold: nat
    const boundary: nat
    const ring: array<T>        // mmap_buffer
    // what the application sees
    var applPtr: nat            // mmap_control->appl_ptr
    var hwPtr: nat              // mmap_status->hw_ptr
    var status: PcmState        // mmap_status->state
    var xruns: nat
    var errno: Errno
    // the kernel and the hardware
    var kernelAppl: nat
    var kernelHw: nat
    var kernelState: PcmState
    ghost var stateMoves: nat       // changes of that state on the kernel's own account
    ghost var stale: bool
    ghost var fed: seq<T>
    ghost var out: seq<T>
    // what happened
    ghost const origin: Ring<T>
    ghost var trace: seq<Step<T>>
    ghost var epoch: nat            // successful PREPAREs
    ghost var startRequests: nat    // calls of pcm_start
    ghost var transfers: seq<Attempt>   // what each transfer that returned reported
    ghost var commitFailures: nat
    ghost var callFailures: nat     // calls of the kernel that failed: SYNC_PTR, START, poll
    ghost var prepareFailures: nat

    ghost function Model(): Ring<T>
      reads `applPtr, `hwPtr, `kernelAppl, `kernelHw, `stale, `fed, `out, ring
    {
      Ring(capture, boundary, ring[..], applPtr, hwPtr, kernelAppl, kernelHw, stale, fed, out)
    }

    ghost predicate Valid()
      reads `applPtr, `hwPtr, `kernelAppl, `kernelHw, `stale, `fed, `out, `status, `kernelState, `trace, ring
    {
      && Inv(Model())
      && Fresh(origin) && Legal(origin, trace) && After(origin, trace) == Model()
      && (mapped ==> InStep(Model()) && status == kernelState)
    }

    /** What the kernel does by itself shows here. */
    ghost function KernelView(): Kernel
      reads `kernelHw, `kernelState, `stateMoves
    {
      Kernel(kernelHw, kernelState, stateMoves)
    }

    /** The frames available by two pointers. */
    ghost function AvailBy(hw: nat, appl: nat): int {
      if !(appl < boundary && hw < boundary) then 0
      else if capture then Dist(appl, hw, boundary)
      else ring.Length - Dist(hw, appl, boundary)
    }

    /** A stream as a successful open, PREPARE and synchronisation leave it. */
    constructor (capture: bool, mapped: bool, nonblock: bool, norestart: bool, startThreshold: nat,
                 boundary: nat, buffer: array<T>, pointer: nat)
      requires Shape(buffer.Length, boundary) && pointer < boundary
      ensures Valid() && fresh(this) && ring == buffer
      ensures this.capture == capture && this.mapped == mapped && this.nonblock == nonblock
      ensures this.norestart == norestart && this.startThreshold == startThreshold && this.boundary == boundary
      ensures fed == out == [] && applPtr == pointer && kernelState == Prepared && xruns == 0 && !stale
    {
      this.capture, this.mapped, this.nonblock, this.norestart := capture, mapped, nonblock, norestart;
      this.startThreshold, this.boundary, ring := startThreshold, boundary, buffer;
      applPtr, hwPtr, kernelAppl, kernelHw := pointer, pointer, pointer, pointer;
      status, kernelState, xruns, errno := Prepared, Prepared, 0, OtherErrno;
      stale, fed, out, trace := false, [], [], [];
      origin := Ring(capture, boundary, buffer[..], pointer, pointer, pointer, pointer, false, [], []);
      epoch, startRequests, commitFailures, callFailures, prepareFailures := 0, 0, 0, 0, 0;
      stateMoves, transfers := 0, [];
      new;
      hide Inv, Legal, After, InStep;
      FreshIsSound(origin);
      assert Model() == origin;
    }

    /** Records a step that has just been carried out on the fields. */
    ghost method Record(r: Ring<T>, s: Step<T>)
      requires Inv(r) && Enabled(r, s) && Model() == Next(r, s)
      requires Fresh(origin) && Legal(origin, trace) && After(origin, trace) == r
      modifies `trace
      ensures Inv(Model())
      ensures Legal(origin, trace) && After(origin, trace) == Model()
      ensures trace == old(trace) + [s]
    {
      StepKeepsInv(r, s);
      RunExtends(origin, trace, s);
      trace := trace + [s];
    }

    /** The hardware plays the frame in the cell it is at. */
    method PlayFrame()
      requires Valid() && !capture && kernelHw != kernelAppl
      modifies `kernelHw, `out, `trace
      ensures Valid() && Quiet(old(Model()), Model())
    {
      ghost var r := Model();
      QuietStep(r, Play);
      hide Inv, Quiet, Legal, After, Fresh, InStep;
      CellIsRemainder(kernelHw, ring.Length);
      out := out + [ring[kernelHw % ring.Length]];
      kernelHw := Advance(kernelHw, 1, boundary);
      Record(r, Play);
    }

    /** The hardware captures a frame into the cell it is at. */
    method ProduceFrame(frame: T)
      requires Valid() && capture && Dist(kernelAppl, kernelHw, boundary) < ring.Length
      modifies ring, `kernelHw, `fed, `trace
      ensures Valid() && Quiet(old(Model()), Model())
    {
      ghost var r := Model();
      QuietStep(r, Produce(frame));
      hide Inv, Quiet, Legal, After, Fresh, InStep;
      CellIsRemainder(kernelHw, ring.Length);
      ring[kernelHw % ring.Length] := frame;
      fed := fed + [frame];
      kernelHw := Advance(kernelHw, 1, boundary);
      Record(r, Produce(frame));
    }

    /** The kernel's hardware pointer and state reach the application. */
    method Refresh()
      requires Valid() && !stale
      modifies `hwPtr, `status, `trace
      ensures Valid() && Quiet(old(Model()), Model())
      ensures hwPtr == kernelHw && status == kernelState
    {
      ghost var r := Model();
      QuietStep(r, Observe);
      hide Inv, Quiet, Legal, After, Fresh, InStep, Dist;
      hwPtr := kernelHw;
      status := kernelState;
      Record(r, Observe);
    }

    /** The kernel state changes on its own account: a start by another thread, an xrun, a suspend. */
    method KernelStateMoves()
      requires Valid()
      modifies `kernelState, `stateMoves, `status
      ensures Valid() && Model() == old(Model())
      ensures old(kernelState) != Setup ==> kernelState != Setup
      ensures !mapped ==> status == old(status)
      ensures Calm(old(KernelView()), KernelView())
    {
      var next: PcmState := *;
      if next != Setup && next != Open {
        stateMoves := stateMoves + (if next != kernelState then 1 else 0);
        kernelState := next;
        if mapped {
          status := next;
        }
      }
    }

    lemma PointersInRange()
      requires Valid()
      ensures kernelAppl < boundary && kernelHw < boundary
    {
    }

    /** The hardware moves one frame, or the mapped status is refreshed. */
    method HardwareMoves()
      requires Valid()
      modifies ring, `kernelHw, `fed, `out, `hwPtr, `status, `trace
      ensures Valid() && Quiet(old(Model()), Model())
      ensures !mapped ==> status == old(status)
      ensures Calm(old(KernelView()), KernelView())
    {
      hide *;
      PointersInRange();
      QuietItself();
      CalmItself(KernelView());
      CalmIfBusy(KernelView());
      ViewIs();
      var busy := Busy(kernelState);
      var refresh: bool := *;
      if refresh && mapped {
        MappedIsInStep();
        StaysInStep();
        Refresh();
      } else if busy && !capture && kernelHw != kernelAppl {
        PlayFrame();
      } else if busy && capture && Dist(kernelAppl, kernelHw, boundary) < ring.Length {
        var frame: T := *;
        ProduceFrame(frame);
      }
      ViewIs();
    }

    /** Any number of environment steps. */
    method HardwareRuns()
      requires Valid()
      modifies ring, `kernelHw, `fed, `out, `hwPtr, `kernelState, `stateMoves, `status, `trace
      ensures Valid() && Quiet(old(Model()), Model())
      ensures old(kernelState) != Setup ==> kernelState != Setup
      ensures !mapped ==> status == old(status)
      ensures Calm(old(KernelView()), KernelView())
    {
      var steps :| 0 <= steps;
      for i := 0 to steps
        invariant Valid() && Quiet(old(Model()), Model())
        invariant old(kernelState) != Setup ==> kernelState != Setup
        invariant !mapped ==> status == old(status)
        invariant Calm(old(KernelView()), KernelView())
      {
        ghost var r := Model();
        KernelStateMoves();
        HardwareMoves();
        QuietTransitive(old(Model()), r, Model());
      }
    }

    // ------------------------------------------------------------ pointer synchronisation

    method PushPointer()
      requires Valid() && !stale
      modifies `kernelAppl, `hwPtr, `status, `trace
      ensures Valid() && Quiet(old(Model()), Model()) && InStep(Model())
      ensures hwPtr == kernelHw && status == kernelState
    {
      hide Inv, Quiet, Next, Enabled, InStep, Legal, After, Fresh;
      ghost var r := Model();
      ghost var r' := PushResult(r);
      kernelAppl, hwPtr := applPtr, kernelHw;
      assert Model() == r';
      Record(r, Push);
      status := kernelState;
    }

    method PullPointer()
      requires Valid()
      modifies `applPtr, `hwPtr, `status, `stale, `fed, `out, `trace
      ensures Valid() && InStep(Model())
      ensures Model().AppLog() <= old(Model().AppLog())
      ensures InStep(old(Model())) ==> Quiet(old(Model()), Model())
      ensures hwPtr == kernelHw && status == kernelState
    {
      hide Inv, Quiet, Next, Enabled, InStep, Legal, After, Fresh;
      ghost var r := Model();
      ghost var r' := PullResult(r);
      applPtr, hwPtr := kernelAppl, kernelHw;
      stale, fed, out := false, r'.fed, r'.out;
      assert Model() == r';
      Record(r, Pull);
      status := kernelState;
    }

    lemma MappedIsInStep()
      requires Valid() && mapped
      ensures InStep(Model()) && status == kernelState
    {
    }

    /** The SYNC_PTR call that succeeds. */
    method ExchangePointers(appl: bool)
      requires Valid() && (appl || !stale)
      modifies `applPtr, `kernelAppl, `hwPtr, `status, `stale, `fed, `out, `trace
      ensures Valid() && InStep(Model()) && status == kernelState && hwPtr == kernelHw
      ensures Model().AppLog() <= old(Model().AppLog())
      ensures !appl || InStep(old(Model())) ==> Quiet(old(Model()), Model())
    {
      if appl {
        PullPointer();
      } else {
        PushPointer();
      }
    }

    /**
     `pcm_sync_ptr`. With mmapped status only HWSYNC makes a call that can fail;
     otherwise SYNC_PTR exchanges the pointers, in the direction the APPL flag gives.
     */
    method SyncPtr(hwsync: bool, appl: bool) returns (err: int)
      requires Valid() && (appl || !stale)
      modifies ring, `applPtr, `hwPtr, `status, `errno, `callFailures, `kernelAppl, `kernelHw, `kernelState, `stateMoves, `stale, `fed, `out, `trace
      ensures Valid() && (err == 0 || err == -1)
      ensures callFailures == old(callFailures) + (if err == 0 then 0 else 1)
      ensures mapped && !hwsync ==> err == 0
      ensures err == 0 ==> InStep(Model()) && status == kernelState
      // the hardware pointer arrives, but with mapped status only HWSYNC asks for it
      ensures err == 0 && (hwsync || !mapped) ==> hwPtr == kernelHw
      ensures Calm(old(KernelView()), KernelView())
      ensures Model().AppLog() <= old(Model().AppLog())
      ensures err != 0 || !appl || InStep(old(Model())) ==> Quiet(old(Model()), Model())
      ensures old(kernelState) != Setup ==> kernelState != Setup
    {
      hide *;
      ghost var before := Model();
      HardwareRuns();
      ghost var r := Model();
      QuietFacts(before, r);
      var failure: bool := *;
      if failure && (hwsync || !mapped) {
        errno, callFailures := *, callFailures + 1;
        return -1;
      }
      if !mapped {
        ExchangePointers(appl);
        if Quiet(r, Model()) {
          QuietTransitive(before, r, Model());
        }
      } else {
        MappedIsInStep();
        if hwsync {
          StaysInStep();
          Refresh();
          QuietTransitive(before, r, Model());
          MappedIsInStep();
        }
      }
      err := 0;
    }

    // ------------------------------------------------------------ the areas

    /**
     `pcm_mmap_avail`: the sync may fail unnoticed; the `int` result is used as unsigned by its callers. After
     a failed commit the pointer is ahead of the kernel's, and this call tells the kernel of it.
     */
    method MmapAvail() returns (avail: nat)
      requires Valid() && !stale
      modifies ring, `applPtr, `hwPtr, `status, `errno, `callFailures, `kernelAppl, `kernelHw, `kernelState, `stateMoves, `stale, `fed, `out, `trace
      ensures Valid() && !stale && Quiet(old(Model()), Model())
      ensures InStep(old(Model())) || callFailures == old(callFailures) ==> InStep(Model())
      ensures Model().Shaped() && avail == Model().Avail()
      ensures callFailures >= old(callFailures) && applPtr == old(applPtr)
      // unless the sync failed it is the count by the kernel's own pointer
      ensures callFailures == old(callFailures) ==> hwPtr == kernelHw && avail == AvailBy(kernelHw, applPtr)
      ensures Calm(old(KernelView()), KernelView())
      ensures old(kernelState) != Setup ==> kernelState != Setup
    {
      hide *;
      Staleness();
      ModelAppl();
      var _ := SyncPtr(true, false);
      QuietFacts(old(Model()), Model());
      Staleness();
      ComputedAvail();
      var frames := if capture then CaptureAvail(hwPtr, applPtr, boundary)
                    else PlaybackAvail(hwPtr, applPtr, ring.Length, boundary);
      UIntRoundTrip(frames);
      avail := ToUInt(ToInt(frames));
      SameAppl(old(Model()), old(applPtr));
      if hwPtr == kernelHw {
        AvailIsReal();
      }
    }

    lemma ModelAppl()
      ensures Model().appl == applPtr
    {
    }

    lemma SameAppl(before: Ring<T>, appl: nat)
      requires Quiet(before, Model()) && before.appl == appl
      ensures applPtr == appl
    {
    }

    lemma AvailIsReal()
      requires Valid() && !stale && hwPtr == kernelHw
      ensures Model().Shaped() && Model().Avail() == AvailBy(kernelHw, applPtr)
    {
    }

    lemma StaysInStep()
      requires InStep(Model())
      ensures !stale && Model().appl == applPtr
    {
    }

    lemma Staleness()
      ensures Model().stale == stale
    {
    }

    lemma ComputedAvail()
      requires Valid() && !stale
      ensures Model().Shaped()
      ensures capture ==> CaptureAvail(hwPtr, applPtr, boundary) == Model().Avail()
      ensures !capture ==> PlaybackAvail(hwPtr, applPtr, ring.Length, boundary) == Model().Avail()
      ensures 0 <= Model().Avail() <= ring.Length <= UINT_MAX
    {
      AvailIsComputed(Model());
      AvailIsSound(Model());
    }

    lemma ShapeFacts()
      requires Valid()
      ensures Model().Shaped() && Shape(ring.Length, boundary) && applPtr < boundary && 0 < ring.Length <= UINT_MAX
    {
    }

    /** `pcm_mmap_begin`: where the next frames go, and how many of them may be moved in one piece. */
    method MmapBegin(wanted: nat) returns (offset: nat, frames: nat)
      requires Valid() && !stale
      modifies ring, `applPtr, `hwPtr, `status, `errno, `callFailures, `kernelAppl, `kernelHw, `kernelState, `stateMoves, `stale, `fed, `out, `trace
      ensures Valid() && !stale && Quiet(old(Model()), Model())
      ensures InStep(old(Model())) || callFailures == old(callFailures) ==> InStep(Model())
      ensures offset == CellOf(applPtr, ring.Length) && offset + frames <= ring.Length
      ensures frames <= wanted && frames <= Model().Avail() && Model().Grants(frames)
      ensures frames == Clamped(wanted, Model().Avail(), offset, ring.Length)
      ensures frames == wanted || frames == Model().Avail() || offset + frames == ring.Length
      ensures callFailures >= old(callFailures) && applPtr == old(applPtr)
      ensures Calm(old(KernelView()), KernelView())
      ensures old(kernelState) != Setup ==> kernelState != Setup
    {
      hide Inv, Quiet, Legal, After, Fresh;
      ShapeFacts();
      CellIsRemainder(applPtr, ring.Length);
      offset := applPtr % ring.Length;
      var avail := MmapAvail();
      QuietFacts(old(Model()), Model());
      if avail > ring.Length {
        avail := ring.Length;
      }
      var continuous := ring.Length - offset;
      frames := wanted;
      if frames > avail {
        frames := avail;
      }
      if frames > continuous {
        frames := continuous;
      }
    }

    /** `pcm_areas_copy` for playback: user frames into the granted cells. */
    method CopyToRing(offset: nat, buf: array<T>, src: nat, frames: nat)
      requires Valid() && !capture && buf != ring
      requires Model().Grants(frames) && offset == CellOf(applPtr, ring.Length) && src + frames <= buf.Length
      modifies ring, `trace
      ensures Valid() && Model().Grants(frames)
      ensures Model() == old(Model()).(cells := ring[..])
      ensures NextFrames(Model(), frames) == buf[src..src + frames]
    {
      hide Inv, Quiet, Legal, After, Fresh, Next, Enabled;
      ghost var r, data := Model(), buf[src..src + frames];
      ghost var r' := WriteResult(r, data);
      CopyFrames(ring, offset, buf, src, frames);
      assert Model() == r';
      Record(r, Write(data));
    }

    /** `pcm_areas_copy` for capture: granted cells into the user's buffer. */
    method CopyFromRing(offset: nat, buf: array<T>, src: nat, frames: nat)
      requires Valid() && capture && buf != ring
      requires Model().Grants(frames) && offset == CellOf(applPtr, ring.Length) && src + frames <= buf.Length
      modifies buf
      ensures Valid() && Model() == old(Model())
      ensures |out| + frames <= |fed|
      ensures buf[..] == old(buf[..src]) + NextFrames(Model(), frames) + old(buf[src + frames..])
    {
      hide Inv, Quiet, Legal, After, Fresh;
      GrantIsUnread(Model(), frames);
      CopyFrames(buf, src, ring, offset, frames);
    }

    /** `pcm_mmap_commit`: the pointer has moved even when the sync fails. */
    method MmapCommit(frames: nat) returns (ret: int)
      requires Valid() && Model().Grants(frames) && frames <= ring.Length
      requires capture ==> |out| + frames <= |fed|
      modifies ring, `applPtr, `hwPtr, `status, `errno, `callFailures, `kernelAppl, `kernelHw, `kernelState, `stateMoves, `stale, `fed, `out, `trace, `commitFailures
      ensures Valid() && (ret == frames || ret == -1)
      ensures callFailures == old(callFailures) + (if ret == -1 then 1 else 0)
      ensures ret == -1 ==> commitFailures == old(commitFailures) + 1
      ensures ret != -1 ==> InStep(Model()) && commitFailures == old(commitFailures)
      ensures ret != -1 ==> Model().Avail() >= old(Model().Avail()) - frames
      ensures Model().AppLog() == old(Model().AppLog()) + old(NextFrames(Model(), frames))
      ensures old(kernelState) != Setup ==> kernelState != Setup
      ensures Calm(old(KernelView()), KernelView())
    {
      hide Inv, Quiet, Legal, After, Fresh;
      ApplForward(frames);
      ghost var r := Model();
      ret := SyncPtr(false, false);
      QuietFacts(r, Model());
      if ret != 0 {
        commitFailures := commitFailures + 1;
        return ret;
      }
      ret := frames;
    }

    /** `pcm_mmap_appl_forward`; mmapped control is the kernel's own pointer. */
    method ApplForward(frames: nat)
      requires Valid() && Model().Grants(frames) && frames <= ring.Length
      requires capture ==> |out| + frames <= |fed|
      modifies `applPtr, `kernelAppl, `fed, `out, `trace
      ensures Valid() && !stale
      ensures Model().Shaped() && Model().Avail() >= old(Model().Avail()) - frames
      ensures Model().AppLog() == old(Model().AppLog()) + old(NextFrames(Model(), frames))
    {
      hide Inv, Quiet, Legal, After, Fresh, Next, Enabled;
      ghost var r := Model();
      ghost var r' := ForwardResult(r, frames);
      ApplForwardExact(applPtr, frames, ring.Length, boundary);
      applPtr := RingPointers.ApplForward(applPtr, frames, boundary);
      fed, out := r'.fed, r'.out;
      assert Model() == r';
      Record(r, Forward(frames));
      if mapped {
        ShareControl();
      }
    }

    /** With mmapped control the kernel sees the pointer as soon as it is written. */
    method ShareControl()
      requires Inv(Model()) && !stale && mapped && status == kernelState
      requires Fresh(origin) && Legal(origin, trace) && After(origin, trace) == Model()
      modifies `kernelAppl, `trace
      ensures Valid() && Quiet(old(Model()), Model())
      ensures Model().Shaped() && old(Model()).Shaped() && Model().Avail() >= old(Model()).Avail()
    {
      hide Inv, Quiet, Legal, After, Fresh, Next, Enabled;
      ghost var r := Model();
      ghost var shared := ShareResult(r);
      kernelAppl := applPtr;
      assert Model() == shared;
      Record(r, Share);
      QuietFacts(r, shared);
    }

    /** One pass of the copy loop: begin, copy, commit. At least one frame moves when any is available. */
    method TransferOnce(buf: array<T>, offset: nat, size: nat) returns (commit: int, frames: nat)
      requires Valid() && InStep(Model()) && buf != ring
      requires offset + size <= buf.Length && 0 < size && 0 < Model().Avail()
      modifies buf, ring, `applPtr, `hwPtr, `status, `errno, `callFailures, `kernelAppl, `kernelHw, `kernelState, `stateMoves, `stale, `fed, `out, `trace, `commitFailures
      ensures Valid() && 0 < frames <= size && (commit == frames || commit == -1)
      ensures callFailures >= old(callFailures) + (if commit == -1 then 1 else 0)
      ensures commit == -1 ==> commitFailures == old(commitFailures) + 1
      ensures commit != -1 ==> InStep(Model()) && commitFailures == old(commitFailures)
      ensures commit != -1 ==> Model().Avail() >= old(Model().Avail()) - frames
      ensures Moved(old(Model().AppLog()), old(buf[..]), Model().AppLog(), buf[..], offset, offset + frames)
      ensures !capture ==> buf[..] == old(buf[..])
      ensures old(kernelState) != Setup ==> kernelState != Setup
      ensures Calm(old(KernelView()), KernelView())
    {
      hide Inv, Quiet, Legal, After, Fresh;
      ghost var r0 := Model();
      var at;
      at, frames := MmapBegin(size);
      QuietFacts(r0, Model());
      if capture {
        CopyFromRing(at, buf, offset, frames);
      } else {
        CopyToRing(at, buf, offset, frames);
      }
      ghost var r1 := Model();
      HardwareRuns();
      QuietFacts(r1, Model());
      QuietKeepsGrant(r1, Model(), frames);
      commit := MmapCommit(frames);
    }

    /**
     `pcm_mmap_transfer_areas`: `moved` frames have passed the application pointer;
     a commit that fails loses the count of them, not the frames.
     */
    method TransferAreas(buf: array<T>, offset0: nat, size0: nat) returns (res: int, ghost moved: nat)
      requires Valid() && InStep(Model()) && buf != ring
      requires offset0 + size0 <= buf.Length && size0 <= INT_MAX
      modifies buf, ring, `applPtr, `hwPtr, `status, `errno, `callFailures, `kernelAppl, `kernelHw, `kernelState, `stateMoves, `stale, `fed, `out, `trace, `commitFailures
      ensures Valid() && moved <= size0
      ensures res == moved || res == -1
      ensures callFailures >= old(callFailures) + (if res == -1 then 1 else 0)
      ensures res != -1 ==> InStep(Model()) && commitFailures == old(commitFailures)
      ensures res == -1 ==> commitFailures == old(commitFailures) + 1 && moved > 0
      ensures res != -1 && size0 <= old(Model().Avail()) ==> res == size0
      ensures res != -1 ==> Model().Avail() >= old(Model().Avail()) - moved
      ensures Moved(old(Model().AppLog()), old(buf[..]), Model().AppLog(), buf[..], offset0, offset0 + moved)
      ensures !capture ==> buf[..] == old(buf[..])
      ensures old(kernelState) != Setup ==> kernelState != Setup
      ensures Calm(old(KernelView()), KernelView())
    {
      hide *;
      ghost var r0, buf0, k0 := Model(), buf[..], KernelView();
      var offset, size, count := offset0, size0, 0;
      moved := 0;
      StaysInStep();
      var avail := MmapAvail();
      QuietFacts(r0, Model());
      MovedNothing(r0.AppLog(), buf0, offset0);
      while avail != 0 && size != 0
        invariant Valid() && InStep(Model())
        invariant 0 <= size <= size0 && count == moved == size0 - size && offset == offset0 + moved
        invariant commitFailures == old(commitFailures) && callFailures >= old(callFailures)
        invariant r0.Shaped() && Model().Shaped() && avail == Model().Avail()
        invariant 0 <= avail && avail >= r0.Avail() - moved
        invariant Moved(r0.AppLog(), buf0, Model().AppLog(), buf[..], offset0, offset)
        invariant !capture ==> buf[..] == buf0
        invariant old(kernelState) != Setup ==> kernelState != Setup
        invariant Calm(old(KernelView()), KernelView())
        decreases size
      {
        ghost var r1, buf1, k1 := Model(), buf[..], KernelView();
        var commit, frames := TransferOnce(buf, offset, size);
        ghost var r2, k2 := Model(), KernelView();
        CalmTransitive(k0, k1, k2);
        MovedOn(r0.AppLog(), buf0, r1.AppLog(), buf1, r2.AppLog(), buf[..], offset0, offset, offset + frames);
        moved := moved + frames;
        if commit < 0 {
          return commit, moved;
        }
        offset, count, size := offset + commit, count + commit, size - commit;
        StaysInStep();
        avail := MmapAvail();
        QuietFacts(r2, Model());
        CalmTransitive(k0, k2, KernelView());
      }
      res := count;
    }

    // ------------------------------------------------------------ state changes

    /** `pcm_state`; `failed` stands for a negative result. */
    method State() returns (failed: bool, st: PcmState)
      requires Valid()
      modifies ring, `applPtr, `hwPtr, `status, `errno, `callFailures, `kernelAppl, `kernelHw, `kernelState, `stateMoves, `stale, `fed, `out, `trace
      ensures Valid() && st == status
      ensures !failed ==> InStep(Model()) && st == kernelState
      ensures callFailures == old(callFailures) + (if failed then 1 else 0)
      ensures Model().AppLog() <= old(Model().AppLog())
      ensures failed || InStep(old(Model())) ==> Quiet(old(Model()), Model())
      ensures old(kernelState) != Setup ==> kernelState != Setup
      ensures Calm(old(KernelView()), KernelView())
    {
      var err := SyncPtr(false, true);
      return err < 0, status;
    }

    /** `pcm_start` on a stream that has left SETUP, which is how the transfer calls it. */
    method Start() returns (rc: int)
      requires Valid() && InStep(Model()) && kernelState != Setup
      modifies ring, `applPtr, `hwPtr, `status, `errno, `callFailures, `kernelAppl, `kernelHw, `kernelState, `stateMoves, `stale, `fed, `out, `trace, `startRequests
      ensures Valid() && InStep(Model()) && Quiet(old(Model()), Model())
      ensures (rc == 0 || rc == -1) && kernelState != Setup
      ensures rc == 0 ==> kernelState == Running
      ensures callFailures >= old(callFailures) + (if rc == -1 then 1 else 0)
      ensures stateMoves >= old(stateMoves) && startRequests == old(startRequests) + 1
    {
      hide *;
      startRequests := startRequests + 1;
      ViewIs();
      ghost var r0, k0 := Model(), KernelView();
      var _, _ := State();
      ghost var r1, k1 := Model(), KernelView();
      QuietFacts(r0, r1);
      StaysInStep();
      rc := SyncPtr(false, false);
      QuietFacts(r1, Model());
      QuietTransitive(r0, r1, Model());
      CalmMoves(k0, k1);
      CalmMoves(k1, KernelView());
      ViewIs();
      if rc < 0 {
        return -1;
      }
      if status != Running {
        var failure: bool := *;
        if failure {
          errno, callFailures := *, callFailures + 1;
          return -1;
        }
        StartChannel();
      }
      rc := 0;
    }

    lemma ViewIs()
      ensures KernelView().moves == stateMoves && KernelView().state == kernelState && KernelView().hw == kernelHw
    {
    }

    /** The START call that succeeds. */
    method StartChannel()
      requires Valid()
      modifies `kernelState, `status
      ensures Valid() && Model() == old(Model()) && kernelState == Running
    {
      kernelState := Running;
      if mapped {
        status := Running;
      }
    }

    /** The PREPARE call that succeeds: the kernel drops what is in the ring. */
    method PrepareChannel()
      requires Valid()
      modifies `applPtr, `hwPtr, `status, `kernelAppl, `kernelState, `stale, `fed, `out, `trace, `epoch
      ensures Valid() && fed == out == [] && epoch == old(epoch) + 1
      ensures kernelState == PcmState.Prepared
    {
      hide Inv, Quiet, Legal, After, Fresh, Enabled, Next;
      ghost var r := Model();
      ghost var r' := PrepareResult(r);
      kernelAppl, fed, out, stale := kernelHw, [], [], true;
      assert Model() == r';
      Record(r, RingModel.Prepare);
      kernelState := PcmState.Prepared;
      epoch := epoch + 1;
      if mapped {
        ShareStatus();
      }
    }

    /** With mmapped control and status the application sees the kernel's values at once. */
    method ShareStatus()
      requires Inv(Model()) && mapped && fed == out == []
      requires Fresh(origin) && Legal(origin, trace) && After(origin, trace) == Model()
      modifies `applPtr, `hwPtr, `status, `stale, `fed, `out, `trace
      ensures Valid() && fed == out == []
    {
      hide Inv, Quiet, Legal, After, Fresh, Enabled, Next;
      ghost var r := Model();
      ghost var r' := PullResult(r);
      PullEmpty(r);
      applPtr, hwPtr, stale := kernelAppl, kernelHw, false;
      assert Model() == r';
      Record(r, Pull);
      status := kernelState;
    }

    /** `pcm_prepare`: the result of the sync that follows PREPARE is not looked at. */
    method Prepare() returns (rc: int)
      requires Valid()
      modifies ring, `applPtr, `hwPtr, `status, `errno, `callFailures, `kernelAppl, `kernelHw, `kernelState, `stateMoves, `stale, `fed, `out, `trace, `epoch, `prepareFailures
      ensures Valid() && (rc == 0 || rc == -1)
      ensures callFailures >= old(callFailures) && prepareFailures == old(prepareFailures) + (if rc == 0 then 0 else 1)
      ensures rc == 0 ==> Model().AppLog() == [] && epoch == old(epoch) + 1 && kernelState != Setup
      ensures rc == 0 && callFailures == old(callFailures) ==> InStep(Model())
      ensures stateMoves >= old(stateMoves) && (rc == 0 && stateMoves == old(stateMoves) ==> kernelState == PcmState.Prepared)
      ensures rc == -1 ==> Quiet(old(Model()), Model()) && epoch == old(epoch)
      ensures old(kernelState) != Setup ==> kernelState != Setup
    {
      hide Inv, Quiet, Legal, After, Fresh, Enabled, Next;
      ghost var k0 := KernelView();
      HardwareRuns();
      CalmMoves(k0, KernelView());
      ViewIs();
      var failure: bool := *;
      if failure {
        errno, prepareFailures := *, prepareFailures + 1;
        return -1;
      }
      PrepareChannel();
      ghost var k1 := KernelView();
      var _ := SyncPtr(false, true);
      CalmMoves(k1, KernelView());
      ViewIs();
      DecidedIs(0);
      rc := 0;
    }

    /** `pcm_wait`: poll, then the state if poll flags an error. `e` is the negated result when it is not `ready`. */
    method Wait() returns (ready: bool, e: Errno, ghost flagged: bool)
      requires Valid() && InStep(Model())
      modifies ring, `applPtr, `hwPtr, `status, `errno, `callFailures, `kernelAppl, `kernelHw, `kernelState, `stateMoves, `stale, `fed, `out, `trace
      ensures Valid() && InStep(Model()) && Quiet(old(Model()), Model())
      ensures old(kernelState) != Setup ==> kernelState != Setup
      ensures callFailures >= old(callFailures) + (if ready then 0 else 1)
      ensures Calm(old(KernelView()), KernelView())
      // what a poll error says is told by the state
      ensures flagged ==> !ready && e in {EPIPE, ESTRPIPE, ENODEV, EIO}
      ensures flagged && e == EPIPE ==> status == kernelState == Xrun
      ensures flagged && e == ESTRPIPE ==> status == kernelState == Suspended
      ensures flagged && e == ENODEV ==> status == kernelState == Disconnected
      ensures flagged && e == EIO && callFailures == old(callFailures) + 1 ==> status !in {Xrun, Suspended, Disconnected}
    {
      hide *;
      ghost var r0 := Model();
      HardwareRuns();
      ghost var r1, k1 := Model(), KernelView();
      QuietFacts(r0, r1);
      var polled: bool, error: bool := *, *;
      flagged := polled && error;
      if !polled {
        callFailures := callFailures + 1;
        e := *;
        return false, e, flagged;
      }
      if error {
        callFailures := callFailures + 1;
        var failed, st := State();
        QuietFacts(r1, Model());
        QuietTransitive(r0, r1, Model());
        CalmTransitive(old(KernelView()), k1, KernelView());
        e := if failed then EIO
             else if st == Xrun then EPIPE
             else if st == Suspended then ESTRPIPE
             else if st == Disconnected then ENODEV
             else EIO;
        return false, e, flagged;
      }
      return true, OtherErrno, flagged;
    }

    // ------------------------------------------------------------ transfers

    /** Does a write that finds `room` free cells on a stream it saw in `entry` ask for a start? */
    ghost predicate StartDue(entry: PcmState, room: int) {
      !capture && entry == PcmState.Prepared && ring.Length - room >= startThreshold
    }

    lemma StartNotDueWithMoreRoom(entry: PcmState, room: int, more: int)
      ensures !StartDue(PcmState.Prepared, room) && room <= more ==> !StartDue(entry, more)
    {
    }

    lemma DecidedIs(room: int)
      ensures StartDecided(room) <==> kernelState == if ring.Length - room >= startThreshold then Running else PcmState.Prepared
      ensures !Busy(PcmState.Prepared)
    {
    }

    /** A playback stream that is prepared and left alone is asked to start by a write that finds `room`, or not. */
    ghost predicate StartDecided(room: int)
      reads `kernelState
    {
      kernelState == if ring.Length - room >= startThreshold then Running else PcmState.Prepared
    }

    /** The room a pass of `pcm_mmap_transfer` finds; without any, it waits or gives up. */
    method AwaitRoom() returns (ok: bool, avail: nat)
      requires Valid() && InStep(Model())
      modifies ring, `applPtr, `hwPtr, `status, `errno, `callFailures, `kernelAppl, `kernelHw, `kernelState, `stateMoves, `stale, `fed, `out, `trace
      ensures Valid() && InStep(Model()) && Quiet(old(Model()), Model())
      ensures old(kernelState) != Setup ==> kernelState != Setup
      ensures Calm(old(KernelView()), KernelView())
      ensures Model().Shaped() && old(Model()).Shaped() && old(Model()).Avail() <= avail <= Model().Avail()
      ensures callFailures >= old(callFailures) && (!ok && callFailures == old(callFailures) ==> nonblock && errno == EAGAIN)
      ensures ok ==> avail > 0 || !nonblock
      ensures nonblock && avail == 0 ==> !ok && errno == EAGAIN
      ensures !ok ==> avail == 0
      ensures callFailures == old(callFailures) && stateMoves == old(stateMoves) && !Busy(old(kernelState)) ==> avail == old(AvailBy(kernelHw, applPtr))
    {
      hide *;
      ghost var r0, k0 := Model(), KernelView();
      StaysInStep();
      ViewIs();
      avail := MmapAvail();
      QuietFacts(r0, Model());
      ghost var r1, k1 := Model(), KernelView();
      CalmMoves(k0, k1);
      ViewIs();
      ok := true;
      if avail == 0 {
        if nonblock {
          errno := EAGAIN;
          return false, avail;
        }
        var ready, e, _ := Wait();
        CalmMoves(k1, KernelView());
        ViewIs();
        CalmTransitive(k0, k1, KernelView());
        QuietTransitive(r0, r1, Model());
        QuietFacts(r1, Model());
        if !ready {
          errno := e;
          ok := false;
        }
      }
    }

    /** The end of a pass: playback is started if what the pass found asks for it. */
    method StartIfDue(state: PcmState, avail: nat) returns (stop: bool)
      requires Valid() && InStep(Model()) && (state == PcmState.Prepared ==> kernelState != Setup)
      modifies ring, `applPtr, `hwPtr, `status, `errno, `callFailures, `kernelAppl, `kernelHw, `kernelState, `stateMoves, `stale, `fed, `out, `trace, `startRequests
      ensures Valid() && InStep(Model()) && Quiet(old(Model()), Model())
      ensures old(kernelState) != Setup ==> kernelState != Setup
      ensures callFailures >= old(callFailures) && (stop ==> callFailures > old(callFailures)) && stateMoves >= old(stateMoves)
      ensures startRequests == old(startRequests) + (if StartDue(state, avail) then 1 else 0)
      ensures !stop && StartDue(state, avail) ==> kernelState == Running
      ensures !StartDue(state, avail) ==> KernelView() == old(KernelView())
    {
      hide *;
      DueIs(state, avail);
      QuietItself();
      stop := false;
      if !capture && state == PcmState.Prepared && ring.Length - avail >= startThreshold {
        var rc := Start();
        stop := rc < 0;
      }
    }

    lemma DueIs(state: PcmState, room: int)
      ensures StartDue(state, room) <==> !capture && state == PcmState.Prepared && ring.Length - room >= startThreshold
    {
    }

    lemma QuietItself()
      requires Valid()
      ensures Quiet(Model(), Model())
    {
    }

    /**
     One pass of the loop of `pcm_mmap_transfer`: `counted` joins the number
     reported, `more` frames passed the pointer, `room` was available before the copy.
     */
    method TransferPass(buf: array<T>, userOffset: nat, left: nat, state: PcmState)
      returns (stop: bool, counted: nat, ghost more: nat, ghost room: int)
      requires Valid() && InStep(Model()) && (state == PcmState.Prepared ==> kernelState != Setup) && buf != ring
      requires 0 < left <= INT_MAX && userOffset + left <= buf.Length
      modifies buf, ring, `applPtr, `hwPtr, `status, `errno, `callFailures, `kernelAppl, `kernelHw, `kernelState, `stateMoves, `stale, `fed, `out, `trace, `commitFailures, `startRequests
      ensures Valid() && (!stop ==> InStep(Model()))
      ensures old(kernelState) != Setup ==> kernelState != Setup
      ensures Moved(old(Model().AppLog()), old(buf[..]), Model().AppLog(), buf[..], userOffset, userOffset + more)
      ensures counted <= more <= left && (!capture ==> buf[..] == old(buf[..]))
      ensures commitFailures >= old(commitFailures) && (commitFailures == old(commitFailures) <==> counted == more)
      ensures !stop ==> commitFailures == old(commitFailures)
      // what stops a transfer early
      ensures callFailures >= old(callFailures)
      ensures stop && callFailures == old(callFailures) ==> nonblock && errno == EAGAIN && room == 0
      ensures room >= old(Model().Avail())
      ensures !stop && left <= old(Model().Avail()) ==> counted == left
      ensures !stop ==> Model().Avail() >= old(Model().Avail()) - more
      ensures nonblock && room == 0 ==> stop && counted == 0 && errno == EAGAIN
      ensures startRequests >= old(startRequests)
      ensures !StartDue(state, room) ==> startRequests == old(startRequests)
      ensures counted > 0 && StartDue(state, room) ==> startRequests > old(startRequests)
      // a start is not only asked for: the stream runs, and without one the kernel is left alone
      ensures counted > 0 && !stop && StartDue(state, room) ==> kernelState == Running
      ensures !StartDue(state, room) ==> Calm(old(KernelView()), KernelView())
      ensures stateMoves >= old(stateMoves)
      ensures callFailures == old(callFailures) && stateMoves == old(stateMoves) && !Busy(old(kernelState)) ==> room == old(AvailBy(kernelHw, applPtr))
    {
      hide *;
      ghost var r0, buf0, k0 := Model(), buf[..], KernelView();
      MovedNothing(r0.AppLog(), buf0, userOffset);
      ViewIs();
      counted, more, stop := 0, 0, true;
      var ok, avail := AwaitRoom();
      room := avail;
      ghost var r1, k1 := Model(), KernelView();
      QuietFacts(r0, r1);
      ViewIs();
      CalmMoves(k0, k1);
      DueIs(state, room);
      if !ok {
        return;
      }
      var transferred;
      transferred, more := TransferAreas(buf, userOffset, left);
      ghost var r2, k2 := Model(), KernelView();
      ViewIs();
      CalmMoves(k1, k2);
      CalmTransitive(k0, k1, k2);
      if transferred < 0 {
        return;
      }
      counted := transferred;
      stop := StartIfDue(state, avail);
      ViewIs();
      QuietFacts(r2, Model());
    }

    /** The head of `pcm_mmap_transfer`: synchronise, and start a capture stream that is due. */
    method TransferEntry(frames: nat) returns (ok: bool, state: PcmState)
      requires Valid()
      modifies ring, `applPtr, `hwPtr, `status, `errno, `callFailures, `kernelAppl, `kernelHw, `kernelState, `stateMoves, `stale, `fed, `out, `trace, `startRequests
      ensures Valid() && (ok ==> InStep(Model()) && (state == PcmState.Prepared ==> kernelState != Setup))
      ensures ok && capture && state == PcmState.Prepared && frames >= startThreshold ==> kernelState == Running
      ensures callFailures >= old(callFailures) + (if ok then 0 else 1)
      ensures old(kernelState) != Setup ==> kernelState != Setup
      ensures !capture ==> Calm(old(KernelView()), KernelView()) && startRequests == old(startRequests)
      // a prepared capture stream that is left alone is started if enough is asked for, and otherwise not
      ensures capture && old(kernelState) == PcmState.Prepared && stateMoves == old(stateMoves) && callFailures == old(callFailures) ==>
                ok && kernelState == if frames >= startThreshold then Running else PcmState.Prepared
      ensures ok && !capture ==> state == kernelState && Model().Shaped() && Model().Avail() == AvailBy(kernelHw, applPtr)
      ensures InStep(old(Model())) ==> applPtr == old(applPtr)
      ensures stateMoves >= old(stateMoves) && startRequests >= old(startRequests)
      ensures Model().AppLog() <= old(Model().AppLog())
      ensures InStep(old(Model())) ==> Quiet(old(Model()), Model())
    {
      hide *;
      ghost var r0, k0, appl0 := Model(), KernelView(), applPtr;
      ModelAppl();
      ViewIs();
      var err := SyncPtr(true, true);
      state := status;
      CalmMoves(k0, KernelView());
      ViewIs();
      if InStep(r0) && (err == 0 || Quiet(r0, Model())) {
        SameAppl(r0, appl0);
      }
      if err == -1 {
        return false, state;
      }
      ok := true;
      StaysInStep();
      AvailIsReal();
      if capture && state == PcmState.Prepared && frames >= startThreshold {
        ghost var r1 := Model();
        var rc := Start();
        QuietFacts(r1, Model());
        if InStep(r0) {
          QuietTransitive(r0, r1, Model());
          SameAppl(r0, appl0);
        }
        ok := rc >= 0;
      }
    }

    /** The loop of `pcm_mmap_transfer`; `room` is what the first pass found. */
    method TransferPasses(buf: array<T>, frames: nat, fuel: nat, state: PcmState)
      returns (r: Outcome, ghost moved: nat, ghost room: int)
      requires Valid() && InStep(Model()) && (state == PcmState.Prepared ==> kernelState != Setup) && buf != ring
      requires 0 < frames <= INT_MAX && frames <= buf.Length
      modifies buf, ring, `applPtr, `hwPtr, `status, `errno, `callFailures, `kernelAppl, `kernelHw, `kernelState, `stateMoves, `stale, `fed, `out, `trace, `commitFailures, `startRequests
      ensures Valid() && moved <= frames
      ensures Moved(old(Model().AppLog()), old(buf[..]), Model().AppLog(), buf[..], 0, moved)
      ensures !capture ==> buf[..] == old(buf[..])
      ensures commitFailures >= old(commitFailures) && callFailures >= old(callFailures) && stateMoves >= old(stateMoves)
      ensures r.Returned? ==> -1 <= r.n <= moved && r.n != 0
      ensures r.Returned? ==> (moved == (if r.n < 0 then 0 else r.n) <==> commitFailures == old(commitFailures))
      ensures r.Returned? && r.n != frames && callFailures == old(callFailures) ==> nonblock && errno == EAGAIN
      ensures startRequests >= old(startRequests)
      ensures capture ==> Calm(old(KernelView()), KernelView())
      ensures frames <= old(Model()).Avail() && !StartDue(state, old(Model()).Avail()) ==> startRequests == old(startRequests)
      ensures r.Returned? && r.n > 0 && StartDue(state, room) ==> startRequests > old(startRequests)
      ensures r.Returned? && r.n > 0 ==> room >= old(Model()).Avail()
      ensures state == PcmState.Prepared && !capture && old(kernelState) == PcmState.Prepared && fuel > 0
                && frames <= old(AvailBy(kernelHw, applPtr)) == old(Model()).Avail()
                && stateMoves == old(stateMoves) && callFailures == old(callFailures)
              ==> r == Returned(frames) && StartDecided(old(AvailBy(kernelHw, applPtr)))
    {
      hide *;
      ghost var r0, buf0, k0, real0 := Model(), buf[..], KernelView(), AvailBy(kernelHw, applPtr);
      moved, room := 0, 0;
      MovedNothing(r0.AppLog(), buf0, 0);
      CalmItself(k0);
      ViewIs();
      DecidedIs(real0);
      ShapeFacts();
      ghost var early := frames <= r0.Avail() && !StartDue(state, r0.Avail());
      ghost var alone := state == PcmState.Prepared && !capture && k0.state == PcmState.Prepared && frames <= real0 == r0.Avail();
      var left, userOffset, watched := frames, 0, fuel;
      while left != 0
        invariant Valid() && InStep(Model()) && (state == PcmState.Prepared ==> kernelState != Setup)
        invariant 0 <= left <= frames && userOffset == moved == frames - left
        invariant Moved(r0.AppLog(), buf0, Model().AppLog(), buf[..], 0, moved)
        invariant !capture ==> buf[..] == buf0
        invariant commitFailures == old(commitFailures) && callFailures >= old(callFailures) && stateMoves >= old(stateMoves)
        invariant Model().Shaped() && r0.Shaped() && Model().Avail() >= r0.Avail() - moved
        invariant early ==> startRequests == old(startRequests) && (left == 0 || left == frames)
        invariant alone && stateMoves == old(stateMoves) && callFailures == old(callFailures) ==>
          if left == frames then watched == fuel && kernelState == PcmState.Prepared && AvailBy(kernelHw, applPtr) == real0
          else left == 0 && StartDecided(real0)
        invariant startRequests >= old(startRequests)
        invariant capture ==> Calm(k0, KernelView())
        invariant moved > 0 && StartDue(state, room) ==> startRequests > old(startRequests)
        invariant moved > 0 ==> room >= r0.Avail()
        decreases watched
      {
        if watched == 0 {
          return Unfinished, moved, room;
        }
        watched := watched - 1;
        ghost var r1, buf1, k1 := Model(), buf[..], KernelView();
        ViewIs();
        var stop, counted;
        ghost var more, found;
        stop, counted, more, found := TransferPass(buf, userOffset, left, state);
        MovedOn(r0.AppLog(), buf0, r1.AppLog(), buf1, Model().AppLog(), buf[..], 0, moved, moved + more);
        if moved == 0 {
          room := found;
        }
        if early {
          DueIs(state, r0.Avail());
        }
        ViewIs();
        DueIs(state, found);
        DecidedIs(real0);
        if !StartDue(state, found) {
          CalmMoves(k1, KernelView());
          if capture {
            CalmTransitive(k0, k1, KernelView());
          }
        }
        moved, userOffset, left := moved + more, userOffset + counted, left - counted;
        if stop {
          break;
        }
        ShapeFacts();
      }
      r := Returned(if userOffset != 0 then userOffset else -1);
    }

    /**
     `pcm_mmap_transfer`. `base` is the history the call finds once it has synchronised, `moved`
     the frames that passed the application pointer, `entry` the state and `room` the
     available frames it saw before it copied any. `fuel` bounds the passes watched.
     */
    method MmapTransfer(buf: array<T>, frames: nat, fuel: nat)
      returns (r: Outcome, ghost base: seq<T>, ghost moved: nat, ghost entry: PcmState, ghost room: int)
      requires Valid() && buf != ring && frames <= buf.Length && frames <= INT_MAX
      modifies buf, ring, `applPtr, `hwPtr, `status, `errno, `callFailures, `kernelAppl, `kernelHw, `kernelState, `stateMoves, `stale, `fed, `out, `trace, `commitFailures, `startRequests, `transfers
      ensures Valid()
      ensures transfers == old(transfers) + (if r.Returned? then [Attempt(r.n, errno)] else [])
      ensures base <= old(Model().AppLog()) && (InStep(old(Model())) ==> base == old(Model().AppLog()))
      ensures Moved(base, old(buf[..]), Model().AppLog(), buf[..], 0, moved) && moved <= frames
      ensures !capture ==> buf[..] == old(buf[..])
      ensures commitFailures >= old(commitFailures) && stateMoves >= old(stateMoves)
      // the count reported is right exactly when no commit failed; otherwise it is too small
      ensures r.Returned? ==> -1 <= r.n <= moved && (r.n == 0 <==> frames == 0)
      ensures r.Returned? ==> (moved == (if r.n < 0 then 0 else r.n) <==> commitFailures == old(commitFailures))
      // fewer frames than asked for: a call failed, or the stream does not wait
      ensures callFailures >= old(callFailures)
      ensures r.Returned? && r.n != frames && callFailures == old(callFailures) ==> nonblock && errno == EAGAIN
      // the start decision looks at the fill before the copy
      ensures !capture && InStep(old(Model())) && frames <= old(Model()).Avail() && !StartDue(PcmState.Prepared, old(Model()).Avail())
              ==> startRequests == old(startRequests)
      ensures r.Returned? && r.n > 0 && StartDue(entry, room) ==> startRequests > old(startRequests)
      ensures r.Returned? && r.n > 0 && InStep(old(Model())) ==> room >= old(Model()).Avail()
      // with nothing else happening to a prepared stream, a write that fits is complete, and has started it or not
      ensures !capture && InStep(old(Model())) && old(kernelState) == PcmState.Prepared
                && 0 < frames <= old(AvailBy(kernelHw, applPtr)) && fuel > 0
                && stateMoves == old(stateMoves) && callFailures == old(callFailures)
              ==> r == Returned(frames) && StartDecided(old(AvailBy(kernelHw, applPtr)))
      // a prepared capture stream is started if enough is asked for, and otherwise not
      ensures capture && old(kernelState) == PcmState.Prepared && 0 < frames
                && stateMoves == old(stateMoves) && callFailures == old(callFailures)
              ==> kernelState == if frames >= startThreshold then Running else PcmState.Prepared
    {
      hide *;
      ghost var r0, buf0, k0, real0 := Model(), buf[..], KernelView(), AvailBy(kernelHw, applPtr);
      ViewIs();
      base, moved, entry, room := r0.AppLog(), 0, status, 0;
      MovedNothing(base, buf0, 0);
      if frames == 0 {
        transfers := transfers + [Attempt(0, errno)];
        return Returned(0), base, moved, entry, room;
      }
      var ok, state := TransferEntry(frames);
      entry, base := state, Model().AppLog();
      ViewIs();
      MovedNothing(base, buf0, 0);
      DecidedIs(real0);
      if !capture {
        CalmMoves(k0, KernelView());
      }
      if InStep(r0) {
        QuietFacts(r0, Model());
        StartNotDueWithMoreRoom(state, r0.Avail(), Model().Avail());
      }
      if !ok {
        transfers := transfers + [Attempt(-1, errno)];
        return Returned(-1), base, moved, entry, room;
      }
      ghost var k1 := KernelView();
      r, moved, room := TransferPasses(buf, frames, fuel, state);
      if capture {
        CalmMoves(k1, KernelView());
        ViewIs();
      }
      transfers := transfers + (if r.Returned? then [Attempt(r.n, errno)] else []);
    }

    /**
     One transfer of `pcm_generic_transfer` and what it does about a failure.
     `again` means the stream was prepared anew and the transfer is to be repeated.
     `attempt` holds the transfer if it returned.
     */
    method TryTransfer(buf: array<T>, frames: nat, fuel: nat)
      returns (again: bool, r: Outcome, ghost attempt: seq<Attempt>, ghost base: seq<T>, ghost moved: nat)
      requires Valid() && buf != ring && frames <= buf.Length && frames <= INT_MAX
      modifies buf, ring, `applPtr, `hwPtr, `status, `errno, `callFailures, `kernelAppl, `kernelHw, `kernelState, `stateMoves, `stale, `fed, `out, `trace, `commitFailures, `startRequests, `transfers, `epoch, `xruns, `prepareFailures
      ensures Valid() && moved <= frames
      ensures callFailures >= old(callFailures) && prepareFailures >= old(prepareFailures)
      ensures r.Returned? && r.n != frames && callFailures == old(callFailures) ==> nonblock && errno == EAGAIN && !again
      ensures r.Returned? && Restartable(attempt) && !norestart && !again ==> prepareFailures > old(prepareFailures)
      // the transfer is what was recorded of it, and errno is its own unless PREPARE was called
      ensures transfers == old(transfers) + attempt
      ensures |attempt| == (if r.Returned? then 1 else 0) && (r.Returned? ==> attempt[0].res == r.n)
      ensures r.Returned? && !again && prepareFailures == old(prepareFailures) ==> attempt[0].errno == errno
      // a failure of the kinds that are restarted after is not returned unless no restart is allowed, or PREPARE failed
      ensures r.Returned? && r.n < 0 && !again && !norestart && prepareFailures == old(prepareFailures) ==> errno !in {EPIPE, ESTRPIPE}
      ensures r.Returned? && r.n < 0 && !again && prepareFailures == old(prepareFailures) ==>
                xruns == old(xruns) + (if errno == EPIPE then 1 else 0)
      ensures r.Returned? && r.n >= 0 ==> !again
      ensures r.Returned? ==> r.n <= moved && (moved == (if r.n < 0 then 0 else r.n) <==> commitFailures == old(commitFailures))
      ensures !again ==> Model().AppLog() == base + buf[..moved]
      ensures !capture ==> buf[..] == old(buf[..])
      ensures base <= old(Model().AppLog()) && (InStep(old(Model())) ==> base == old(Model().AppLog()))
      ensures again ==> r == Returned(-1) && Restartable(attempt) && !norestart
      ensures again ==> epoch == old(epoch) + 1 && Model().AppLog() == []
      ensures stateMoves >= old(stateMoves) && (again && stateMoves == old(stateMoves) ==> kernelState == PcmState.Prepared)
      ensures !again ==> epoch == old(epoch)
      ensures xruns == old(xruns) + (if r.Returned? && IsEpipe(attempt[0]) then 1 else 0)
      ensures commitFailures >= old(commitFailures)
    {
      hide *;
      ghost var before, buf0 := transfers, buf[..];
      ghost var entry, room;
      r, base, moved, entry, room := MmapTransfer(buf, frames, fuel);
      MovedFromStart(base, buf0, Model().AppLog(), buf[..], moved);
      again, attempt := false, transfers[|before|..];
      assert transfers == before + attempt;
      if r.Unfinished? {
        return;
      }
      AttemptIs(r.n, errno);
      assert attempt == [Attempt(r.n, errno)];
      if r.n < 0 && (errno == EPIPE || errno == ESTRPIPE) {
        if errno == EPIPE {
          xruns := xruns + 1;
        }
        if !norestart {
          ghost var r1 := Model();
          var rc := Prepare();
          again := rc == 0;
          if !again {
            QuietFacts(r1, Model());
          }
        }
      }
    }

    /** The head of `pcm_generic_transfer`: a stream in SETUP is prepared first. */
    method PrepareIfSetup() returns (rc: int)
      requires Valid()
      modifies ring, `applPtr, `hwPtr, `status, `errno, `callFailures, `kernelAppl, `kernelHw, `kernelState, `stateMoves, `stale, `fed, `out, `trace, `epoch, `prepareFailures
      ensures Valid() && epoch >= old(epoch)
      ensures epoch > old(epoch) ==> old(kernelState) == Setup
      ensures rc == 0 && epoch == old(epoch) && callFailures == old(callFailures) ==> status != Setup
      ensures rc == 0 || rc == -1
      ensures rc == -1 ==> prepareFailures > old(prepareFailures) && Model().AppLog() <= old(Model().AppLog())
      ensures callFailures >= old(callFailures) && prepareFailures >= old(prepareFailures)
      ensures rc == 0 && epoch > old(epoch) ==> Model().AppLog() == []
      ensures rc == 0 && epoch == old(epoch) ==> Model().AppLog() <= old(Model().AppLog())
      ensures rc == 0 && epoch == old(epoch) && InStep(old(Model())) ==>
                InStep(Model()) && Model().AppLog() == old(Model().AppLog())
    {
      hide *;
      ghost var r0 := Model();
      var failed, st := State();
      if failed || InStep(r0) {
        QuietFacts(r0, Model());
      }
      rc := 0;
      if !failed && st == Setup {
        ghost var r1 := Model();
        rc := Prepare();
        if rc != 0 {
          QuietFacts(r1, Model());
        }
      }
    }

    /** The part of `pcm_generic_transfer` from `again` on. */
    method TransferAgain(buf: array<T>, frames: nat, fuel: nat)
      returns (r: Outcome, ghost attempts: seq<Attempt>, ghost base: seq<T>, ghost moved: nat, ghost lost: nat)
      requires Valid() && buf != ring && frames <= buf.Length && frames <= INT_MAX
      modifies buf, ring, `applPtr, `hwPtr, `status, `errno, `callFailures, `kernelAppl, `kernelHw, `kernelState, `stateMoves, `stale, `fed, `out, `trace, `commitFailures, `startRequests, `transfers, `epoch, `xruns, `prepareFailures
      ensures Valid() && moved <= frames
      ensures Model().AppLog() == base + buf[..moved] && (r.Returned? ==> attempts != [] && r.n <= moved)
      ensures !capture ==> buf[..] == old(buf[..])
      ensures epoch > old(epoch) ==> base == []
      ensures epoch == old(epoch) ==> base <= old(Model().AppLog())
      ensures epoch == old(epoch) && InStep(old(Model())) ==> base == old(Model().AppLog())
      ensures r.Returned? ==> lost <= commitFailures - old(commitFailures) && (|attempts| <= 1 ==> lost == commitFailures - old(commitFailures))
      ensures r.Returned? ==> (moved == (if r.n < 0 then 0 else r.n) <==> lost == 0)
      ensures transfers == old(transfers) + attempts
      ensures r.Returned? && prepareFailures == old(prepareFailures) ==> attempts[|attempts| - 1] == Attempt(r.n, errno)
      ensures r.Returned? && r.n < 0 && !norestart && prepareFailures == old(prepareFailures) ==> errno !in {EPIPE, ESTRPIPE}
      ensures attempts != [] ==> Restartable(attempts[..|attempts| - 1])
      ensures epoch >= old(epoch) && |attempts| <= epoch - old(epoch) + 1
      ensures callFailures >= old(callFailures) && prepareFailures >= old(prepareFailures)
      ensures r.Returned? && Restartable(attempts) && !norestart ==> prepareFailures > old(prepareFailures)
      ensures callFailures == old(callFailures) ==> r.Unfinished? || r.n == frames || (nonblock && errno == EAGAIN)
      ensures norestart ==> |attempts| <= 1
      ensures xruns == old(xruns) + CountEpipe(attempts)
    {
      hide *;
      ghost var log0 := Model().AppLog();
      attempts, base, moved, lost := [], log0, 0, 0;
      NoAttempts();
      JoinedIs(transfers, []);
      var watched := fuel;
      while watched > 0
        invariant Valid()
        invariant transfers == Joined(old(transfers), attempts)
        invariant CountEpipe(attempts) == xruns - old(xruns) && Restartable(attempts)
        invariant commitFailures >= old(commitFailures) && (attempts == [] ==> commitFailures == old(commitFailures))
        invariant callFailures >= old(callFailures) && prepareFailures >= old(prepareFailures)
        invariant |attempts| == epoch - old(epoch) && (norestart ==> attempts == [])
        invariant attempts != [] ==> callFailures > old(callFailures)
        invariant !capture ==> buf[..] == old(buf[..])
        invariant if attempts == [] then Model() == old(Model()) else Model().AppLog() == []
      {
        watched := watched - 1;
        ghost var failedBefore, earlier := commitFailures, attempts;
        ghost var attempt;
        var again;
        again, r, attempt, base, moved := TryTransfer(buf, frames, fuel);
        attempts := Joined(earlier, attempt);
        JoinedFacts(earlier, attempt);
        JoinedTwice(old(transfers), earlier, attempt);
        JoinedIs(old(transfers), attempts);
        lost := commitFailures - failedBefore;
        if !again {
          return;
        }
      }
      RestartableInit(attempts);
      JoinedIs(old(transfers), attempts);
      return Unfinished, attempts, Model().AppLog(), 0, 0;
    }

    /**
     `pcm_generic_transfer` of an mmap stream: transfer, and after an xrun or a
     suspend PREPARE and begin again. `attempts` lists the transfers that returned.
     */
    method GenericTransfer(buf: array<T>, frames: nat, fuel: nat)
      returns (r: Outcome, ghost attempts: seq<Attempt>, ghost base: seq<T>, ghost moved: nat, ghost lost: nat)
      requires Valid() && buf != ring && frames <= buf.Length
      modifies buf, ring, `applPtr, `hwPtr, `status, `errno, `callFailures, `kernelAppl, `kernelHw, `kernelState, `stateMoves, `stale, `fed, `out, `trace, `commitFailures, `startRequests, `transfers, `epoch, `xruns, `prepareFailures
      ensures Valid() && moved <= frames
      ensures frames > INT_MAX ==> r == Returned(-EINVAL) && attempts == []
      // what the last transfer moved: frames of the caller's buffer, in order, in this epoch, whatever is returned,
      // and while the call is still waiting
      ensures Model().AppLog() == base + buf[..moved] && (r.Returned? ==> r.n <= moved)
      ensures !capture ==> buf[..] == old(buf[..])
      // what precedes them: nothing after a restart, otherwise what was there before
      ensures (r.Unfinished? || attempts != []) && epoch > old(epoch) ==> base == []
      ensures epoch == old(epoch) ==> base <= old(Model().AppLog())
      ensures (r.Unfinished? || attempts != []) && epoch == old(epoch) && InStep(old(Model())) ==> base == old(Model().AppLog())
      // the count returned is exact if and only if none of the commits of that transfer failed
      ensures r.Returned? ==> lost <= commitFailures - old(commitFailures) && (|attempts| <= 1 ==> lost == commitFailures - old(commitFailures))
      ensures r.Returned? ==> (moved == (if r.n < 0 then 0 else r.n) <==> lost == 0)
      ensures r.Returned? && attempts == [] ==> r.n < 0 && moved == 0
      // the transfers are those recorded, and errno is that of the last unless PREPARE was called after it
      ensures transfers == old(transfers) + attempts
      ensures r.Returned? && attempts != [] && prepareFailures == old(prepareFailures) ==> attempts[|attempts| - 1] == Attempt(r.n, errno)
      ensures frames <= INT_MAX && r.Returned? && r.n < 0 && !norestart && prepareFailures == old(prepareFailures) ==>
                errno !in {EPIPE, ESTRPIPE}
      // every transfer but the last reported nothing, and PREPARE succeeded after it
      ensures attempts != [] ==> Restartable(attempts[..|attempts| - 1])
      ensures |attempts| <= epoch - old(epoch) + 1
      // a failure of that kind is final only when no restart is allowed or PREPARE failed
      ensures r.Returned? && attempts != [] && Restartable(attempts) && !norestart ==> prepareFailures > old(prepareFailures)
      // all frames are transferred unless a call failed or the stream does not wait
      ensures frames <= INT_MAX && callFailures == old(callFailures) && prepareFailures == old(prepareFailures) ==>
                r.Unfinished? || r.n == frames || (nonblock && errno == EAGAIN)
      ensures norestart ==> |attempts| <= 1
      ensures xruns == old(xruns) + CountEpipe(attempts)
    {
      hide Inv, Quiet, Legal, After, Fresh, Moved, Model, Valid, InStep, Shape, IsEpipe, Restartable, CountEpipe;
      ghost var r0 := Model();
      attempts, base, moved, lost := [], r0.AppLog(), 0, 0;
      NoAttempts();
      if frames > INT_MAX {
        return Returned(-EINVAL), attempts, base, moved, 0;
      }
      hide *;
      var rc := PrepareIfSetup();
      if rc != 0 {
        return Returned(-1), attempts, Model().AppLog(), moved, 0;
      }
      r, attempts, base, moved, lost := TransferAgain(buf, frames, fuel);
    }

    /**
     What a client may rely on after any sequence of calls: the frames the consumer took
     are the first frames of the stream, and the rest of the stream is still in the ring.
     */
    lemma StreamIsFifo()
      requires Valid()
      ensures out <= fed && |fed| - |out| <= ring.Length
      ensures !capture ==> Holds(ring[..], CellOf(kernelHw, ring.Length), fed[|out|..])
      ensures capture && !stale ==> Holds(ring[..], CellOf(applPtr, ring.Length), fed[|out|..])
    {
      RunIsFifo(origin, trace);
    }
  }
}
