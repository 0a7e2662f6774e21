/**
 The life of a plugin stream: the state guards of `src/pcm_plugin.c` and the
 calls `src/pcm.c` makes through them. `calls` records the calls of the kinds of `Call`
 that reach the plugin's own functions, and whether they succeeded.
 */
module PluginLifecycle {

  datatype PlugState = Open | Setup | Prepared | Running

  /** What is mapped: the ring buffer, or a page of `pcm_hw_mmap_status`. */
  datatype Region = Buffer | StatusPage | ControlPage

  datatype Call =
    | HwParams(ok: bool)
    | SwParams(ok: bool)
    | SyncPtr(ok: bool)
    | Writei(ok: bool)
    | Readi(ok: bool)
    | PrepareCall(ok: bool)
    | StartCall(ok: bool)
    | DrainCall(ok: bool)
    | DropCall(ok: bool)
    | Mmap(region: Region, ok: bool)
    | Munmap(region: Region, ok: bool)
    | Ttstamp(ok: bool)
  {
    predicate IsTransfer() {
      Writei? || Readi?
    }
  }

  /** The state the calls so far have led to. */
  function Replay(calls: seq<Call>): PlugState {
    if calls == [] then Open
    else
      var before := Replay(calls[..|calls| - 1]);
      match calls[|calls| - 1]
      case HwParams(true) => Setup
      case PrepareCall(true) => Prepared
      case StartCall(true) => Running
      case DropCall(true) => Setup
      case _ => before
  }

  /** The states in which the library lets a call through to the plugin. */
  predicate Admits(state: PlugState, call: Call) {
    match call
    case HwParams(_) => state == Open
    case SwParams(_) => state == Setup
    case SyncPtr(_) => state != Open
    case Writei(_) => state == Prepared || state == Running
    case Readi(_) => state == Prepared || state == Running
    case PrepareCall(_) => state == Setup
    case StartCall(_) => state == Prepared
    case DrainCall(_) => state == Running
    case DropCall(_) => true
    case Mmap(_, _) => state == Setup
    case Munmap(_, _) => state == Setup
    case Ttstamp(_) => state != Open
  }

  /** Every call was admitted in the state it found. */
  predicate Guarded(calls: seq<Call>) {
    calls == [] || (Guarded(calls[..|calls| - 1]) && Admits(Replay(calls[..|calls| - 1]), calls[|calls| - 1]))
  }

  lemma {:induction false} GuardedAt(calls: seq<Call>, i: nat)
    requires Guarded(calls) && i < |calls|
    ensures Guarded(calls[..i]) && Admits(Replay(calls[..i]), calls[i])
  {
    var init := calls[..|calls| - 1];
    if i < |init| {
      GuardedAt(init, i);
      assert init[..i] == calls[..i];
    }
  }

  lemma Extend(calls: seq<Call>, call: Call)
    requires Guarded(calls) && Admits(Replay(calls), call)
    ensures Guarded(calls + [call])
    ensures Replay(calls + [call]) ==
      match call
      case HwParams(true) => Setup
      case PrepareCall(true) => Prepared
      case StartCall(true) => Running
      case DropCall(true) => Setup
      case _ => Replay(calls)
  {
    assert (calls + [call])[..|calls|] == calls;
  }

  /** Since call `i`, none has brought the stream back to SETUP. */
  ghost predicate KeptSince(calls: seq<Call>, i: nat) {
    forall j :: i < j < |calls| ==> calls[j] != DropCall(true) && calls[j] != HwParams(true)
  }

  /** A stream is prepared or running exactly when it was prepared since it was last brought to SETUP. */
  lemma {:induction false} PreparedSince(calls: seq<Call>)
    requires Guarded(calls)
    ensures Replay(calls) in {Prepared, Running} <==>
            exists i :: 0 <= i < |calls| && calls[i] == PrepareCall(true) && KeptSince(calls, i)
  {
    if calls != [] {
      var init, last := calls[..|calls| - 1], calls[|calls| - 1];
      PreparedSince(init);
      if Replay(calls) in {Prepared, Running} {
        if last == PrepareCall(true) {
          assert KeptSince(calls, |calls| - 1);
        } else {
          var i :| 0 <= i < |init| && init[i] == PrepareCall(true) && KeptSince(init, i);
          assert calls[i] == PrepareCall(true) && KeptSince(calls, i);
        }
      }
      if i :| 0 <= i < |calls| && calls[i] == PrepareCall(true) && KeptSince(calls, i) {
        if i < |init| {
          assert init[i] == PrepareCall(true) && KeptSince(init, i);
        }
      }
    }
  }

  /** Data reaches the plugin only after a PREPARE that succeeded since the last return to SETUP. */
  lemma TransferOnlyWhenPrepared(calls: seq<Call>, n: nat)
    requires Guarded(calls) && n < |calls| && calls[n].IsTransfer()
    ensures exists i :: 0 <= i < n && calls[i] == PrepareCall(true) && KeptSince(calls[..n], i)
  {
    GuardedAt(calls, n);
    PreparedSince(calls[..n]);
    var i :| 0 <= i < n && calls[..n][i] == PrepareCall(true) && KeptSince(calls[..n], i);
  }

  /** Since call `i`, none has prepared the stream. */
  ghost predicate NotPreparedSince(calls: seq<Call>, i: nat) {
    forall j :: i < j < |calls| ==> calls[j] != PrepareCall(true)
  }

  /** A running stream was started from PREPARED, and not prepared or dropped since. */
  lemma {:induction false} RunningSince(calls: seq<Call>)
    requires Guarded(calls) && Replay(calls) == Running
    ensures exists i :: 0 <= i < |calls| && calls[i] == StartCall(true) && Replay(calls[..i]) == Prepared
                        && KeptSince(calls, i) && NotPreparedSince(calls, i)
  {
    var init, last := calls[..|calls| - 1], calls[|calls| - 1];
    if last == StartCall(true) {
      assert Replay(calls[..|calls| - 1]) == Prepared && KeptSince(calls, |calls| - 1);
    } else {
      RunningSince(init);
      var i :| 0 <= i < |init| && init[i] == StartCall(true) && Replay(init[..i]) == Prepared && KeptSince(init, i)
               && NotPreparedSince(init, i);
      assert init[..i] == calls[..i];
      assert calls[i] == StartCall(true) && KeptSince(calls, i) && NotPreparedSince(calls, i);
    }
  }

  /** What the plugin may rely on when it is called: the calls that must have gone before. */
  lemma CalledInOrder(calls: seq<Call>, n: nat)
    requires Guarded(calls) && n < |calls|
    ensures calls[n].DrainCall? ==>
      exists i :: 0 <= i < n && calls[i] == StartCall(true) && KeptSince(calls[..n], i) && NotPreparedSince(calls[..n], i)
    ensures calls[n].StartCall? ==> exists i :: 0 <= i < n && calls[i] == PrepareCall(true) && KeptSince(calls[..n], i)
    ensures calls[n].SyncPtr? || calls[n].Ttstamp? || calls[n].PrepareCall? || calls[n].SwParams? || calls[n].Mmap? || calls[n].Munmap? ==>
      exists i :: 0 <= i < n && calls[i] in {HwParams(true), DropCall(true)}
    ensures calls[n].SwParams? || calls[n].Mmap? || calls[n].Munmap? || calls[n].PrepareCall? ==>
      !exists i :: 0 <= i < n && calls[..n][i] == PrepareCall(true) && KeptSince(calls[..n], i)
  {
    GuardedAt(calls, n);
    var before := calls[..n];
    PreparedSince(before);
    if Replay(before) == Running {
      RunningSince(before);
      var i :| 0 <= i < n && before[i] == StartCall(true) && KeptSince(before, i) && NotPreparedSince(before, i);
      assert calls[i] == StartCall(true);
    }
    if Replay(before) in {Prepared, Running} {
      var i :| 0 <= i < n && before[i] == PrepareCall(true) && KeptSince(before, i);
      assert calls[i] == PrepareCall(true);
    }
    if Replay(before) != Open {
      SetUpBefore(before);
      var i :| 0 <= i < n && before[i] in {HwParams(true), DropCall(true)};
      assert calls[i] == before[i];
    }
  }

  /** A stream past OPEN has come to SETUP before. */
  lemma {:induction false} SetUpBefore(calls: seq<Call>)
    requires Guarded(calls) && Replay(calls) != Open
    ensures exists i :: 0 <= i < |calls| && calls[i] in {HwParams(true), DropCall(true)}
  {
    var init, last := calls[..|calls| - 1], calls[|calls| - 1];
    if last in {HwParams(true), DropCall(true)} {
      assert calls[|calls| - 1] == last;
    } else {
      SetUpBefore(init);
      var i :| 0 <= i < |init| && init[i] in {HwParams(true), DropCall(true)};
      assert calls[i] == init[i];
    }
  }

  /** Once opened, a stream never goes back to OPEN. */
  lemma {:induction false} OpenedStays(calls: seq<Call>, n: nat)
    requires n <= |calls| && Replay(calls[..n]) != Open
    ensures Replay(calls) != Open
    decreases |calls| - n
  {
    if n < |calls| {
      assert calls[..n + 1][..n] == calls[..n];
      OpenedStays(calls, n + 1);
    } else {
      assert calls[..n] == calls;
    }
  }

  /** After `pcm_open` set the parameters: the stream is never in OPEN again, and they are never set again. */
  lemma {:induction false} LifeAfterOpen(calls: seq<Call>, n: nat)
    requires Guarded(calls) && 0 < n <= |calls| && calls[0] == HwParams(true)
    ensures Replay(calls[..n]) in {Setup, Prepared, Running}
    ensures forall i :: 0 < i < n ==> !calls[i].HwParams?
  {
    assert Replay(calls[..1]) == Setup by {
      assert calls[..1][..0] == [];
    }
    forall i | 0 < i < n
      ensures !calls[i].HwParams?
    {
      GuardedAt(calls, i);
      assert calls[..i][..1] == calls[..1];
      OpenedStays(calls[..i], 1);
    }
    assert calls[..n][..1] == calls[..1];
    OpenedStays(calls[..n], 1);
  }

  /**
   DROP is not guarded. A stream that has left OPEN has been given its parameters exactly
   when the first call that changed its state was not a DROP.
   */
  lemma {:induction false} ParametersAccepted(calls: seq<Call>)
    requires Guarded(calls) && Replay(calls) != Open
    ensures HwParams(true) in calls <==> FirstChange(calls) != DropCall(true)
  {
    var init, last := calls[..|calls| - 1], calls[|calls| - 1];
    assert calls == init + [last];
    if Replay(init) == Open {
      StillOpen(init);
      assert last == HwParams(true) || last == DropCall(true);
    } else {
      ParametersAccepted(init);
      assert last != HwParams(true);
    }
  }

  function FirstChange(calls: seq<Call>): Call
    requires Replay(calls) != Open
  {
    var init := calls[..|calls| - 1];
    if Replay(init) == Open then calls[|calls| - 1] else FirstChange(init)
  }

  lemma {:induction false} StillOpen(calls: seq<Call>)
    requires Replay(calls) == Open
    ensures HwParams(true) !in calls
  {
    if calls != [] {
      StillOpen(calls[..|calls| - 1]);
      assert calls == calls[..|calls| - 1] + [calls[|calls| - 1]];
    }
  }

  /**
   So the guards of the plugin side let a freshly opened plugin be prepared and written without parameters after
   a DROP. No caller of `src/pcm.c` can do that: it has no stream before HW_PARAMS succeeded (`LifeAfterOpen`).
   */
  lemma DropSkipsParameters()
    ensures Guarded([DropCall(true), PrepareCall(true), Writei(true)])
    ensures Replay([DropCall(true), PrepareCall(true), Writei(true)]) == Prepared
  {
    Extend([], DropCall(true));
    Extend([DropCall(true)], PrepareCall(true));
    Extend([DropCall(true), PrepareCall(true)], Writei(true));
    assert [DropCall(true)] + [PrepareCall(true)] == [DropCall(true), PrepareCall(true)];
    assert [DropCall(true), PrepareCall(true)] + [Writei(true)] == [DropCall(true), PrepareCall(true), Writei(true)];
    assert [] + [DropCall(true)] == [DropCall(true)];
  }

  // ---------------------------------------------------------------- the plugin side of the stream

  datatype Errno = EPIPE | ESTRPIPE | EAGAIN | OtherErrno

  class PlugStream {
    var state: PlugState
    var errno: Errno
    var xruns: nat
    var mmapStream: bool        // PCM_MMAP
    var mapped: bool            // status and control pages are mapped (sync_ptr == NULL)
    ghost var calls: seq<Call>

    ghost predicate Valid()
      reads this
    {
      Guarded(calls) && state == Replay(calls)
    }

    /** `pcm_plug_open`. */
    constructor ()
      ensures Valid() && state == Open && calls == [] && xruns == 0 && !mapped
    {
      state, errno, xruns, mmapStream, mapped, calls := Open, OtherErrno, 0, false, false, [];
    }

    /** A call reaches the plugin, which may set errno. */
    method Reach(call: Call)
      requires Valid() && Admits(state, call)
      modifies `state, `errno, `calls
      ensures Valid() && calls == old(calls) + [call]
      ensures !call.ok || !(call.HwParams? || call.PrepareCall? || call.StartCall? || call.DropCall?) ==> state == old(state)
      ensures call == HwParams(true) || call == DropCall(true) ==> state == Setup
      ensures call == PrepareCall(true) ==> state == Prepared
      ensures call == StartCall(true) ==> state == Running
    {
      Extend(calls, call);
      calls := calls + [call];
      if call.ok {
        if call.HwParams? || call.DropCall? {
          state := Setup;
        } else if call.PrepareCall? {
          state := Prepared;
        } else if call.StartCall? {
          state := Running;
        }
      }
      errno := *;
    }

    /** One ioctl of `pcm_plug_ioctl`: refused with EBADFD outside the states the call is for. */
    method Ioctl(call: Call) returns (ok: bool)
      requires Valid()
      modifies `state, `errno, `calls
      ensures Valid() && ok == (call.ok && Admits(old(state), call))
      ensures calls == if Admits(old(state), call) then old(calls) + [call] else old(calls)
      ensures !Admits(old(state), call) ==> errno == old(errno)
      ensures !ok ==> state == old(state)
      ensures ok && call.PrepareCall? ==> state == Prepared
      ensures ok && call.StartCall? ==> state == Running
      ensures ok && (call.HwParams? || call.DropCall?) ==> state == Setup
      ensures ok && !(call.HwParams? || call.PrepareCall? || call.StartCall? || call.DropCall?) ==> state == old(state)
    {
      if !Admits(state, call) {
        return false;
      }
      Reach(call);
      ok := call.ok;
    }

    /** What `pcm_open` does with a stream: `pcm_set_config`, the status and control pages, the time stamps. */
    method OpenStream(mmapStream: bool, monotonic: bool) returns (success: bool)
      requires Valid() && state == Open && calls == []
      modifies this
      ensures Valid() && (success ==> xruns == 0 && state == Setup && this.mmapStream == mmapStream)
      // what the plugin was called for, and whether it agreed to map both pages
      ensures success ==> exists pages: seq<Call> ::
        && PagesMapped(pages, mapped)
        && calls == [HwParams(true)] + (if mmapStream then [Mmap(Buffer, true)] else []) + [SwParams(true)]
                    + pages + (if monotonic then [Ttstamp(true)] else [])
    {
      this.mmapStream, mapped := mmapStream, false;
      success := SetConfig();
      if !success {
        return;
      }
      ghost var configured := calls;
      ghost var pages := MapStatus();
      if monotonic {
        var answer: bool := *;
        success := Ioctl(Ttstamp(answer));
        if !success {
          UnmapStatus();
          if mmapStream {
            answer := *;
            var _ := Ioctl(Munmap(Buffer, answer));
          }
          return;
        }
      }
      xruns := 0;
      assert PagesMapped(pages, mapped) && calls == configured + pages + (if monotonic then [Ttstamp(true)] else []);
    }

    /** The calls of `pcm_set_config`. */
    method SetConfig() returns (success: bool)
      requires Valid() && state == Open && calls == []
      modifies this
      ensures Valid() && mapped == old(mapped) && mmapStream == old(mmapStream)
      ensures success ==>
        state == Setup && calls == [HwParams(true)] + (if mmapStream then [Mmap(Buffer, true)] else []) + [SwParams(true)]
    {
      var answer: bool := *;
      success := Ioctl(HwParams(answer));
      if !success {
        return;
      }
      if mmapStream {
        answer := *;
        success := Ioctl(Mmap(Buffer, answer));
        if !success {
          return;
        }
      }
      answer := *;
      success := Ioctl(SwParams(answer));
    }

    /** `pcm_hw_mmap_status`. */
    method MapStatus() returns (ghost pages: seq<Call>)
      requires Valid() && state == Setup && !mapped
      modifies this
      ensures Valid() && state == Setup && mmapStream == old(mmapStream) && xruns == old(xruns)
      ensures calls == old(calls) + pages && PagesMapped(pages, mapped)
    {
      var status: bool := *;
      var ok := Ioctl(Mmap(StatusPage, status));
      if !ok {
        return [Mmap(StatusPage, false)];
      }
      var control: bool := *;
      mapped := Ioctl(Mmap(ControlPage, control));
      pages := [Mmap(StatusPage, true), Mmap(ControlPage, mapped)];
      if !mapped {
        var answer: bool := *;
        ok := Ioctl(Munmap(StatusPage, answer));
        pages := pages + [Munmap(StatusPage, answer)];
      }
    }

    /** `pcm_hw_munmap_status`: the pages are given back only in SETUP. */
    method UnmapStatus()
      requires Valid()
      modifies this
      ensures Valid() && state == old(state) && mmapStream == old(mmapStream) && !mapped
      ensures if old(mapped) && state == Setup
              then exists a, b :: calls == old(calls) + [Munmap(StatusPage, a), Munmap(ControlPage, b)]
              else calls == old(calls)
    {
      if mapped {
        ghost var before := calls;
        var status: bool, control: bool := *, *;
        var _ := Ioctl(Munmap(StatusPage, status));
        var _ := Ioctl(Munmap(ControlPage, control));
        if state == Setup {
          assert calls == before + [Munmap(StatusPage, status), Munmap(ControlPage, control)];
        }
      }
      mapped := false;
    }

    /** `pcm_prepare`. */
    method Prepare() returns (ok: bool)
      requires Valid()
      modifies this
      ensures Valid() && xruns == old(xruns) && mapped == old(mapped)
      ensures ok ==> old(state) == Setup && state == Prepared
      ensures !ok ==> state == old(state)
      ensures old(state) != Setup ==> calls == old(calls) && errno == old(errno)
      ensures old(state) == Setup ==> |calls| > |old(calls)| && calls[|old(calls)|] == PrepareCall(ok)
      ensures old(calls) <= calls && CountTransfers(calls) == CountTransfers(old(calls))
      ensures forall j :: |old(calls)| <= j < |calls| ==> !calls[j].IsTransfer()
    {
      var answer: bool := *;
      ghost var before := calls;
      ok := Ioctl(PrepareCall(answer));
      NoTransfers(before, calls);
      if ok {
        var _ := SyncPointers();
      }
    }

    /** `pcm_sync_ptr` without HWSYNC: with the pages mapped there is nothing to call. */
    method SyncPointers() returns (ok: bool)
      requires Valid()
      modifies this
      ensures Valid() && state == old(state) && xruns == old(xruns) && mapped == old(mapped) && mmapStream == old(mmapStream)
      ensures old(calls) <= calls && CountTransfers(calls) == CountTransfers(old(calls))
      ensures forall j :: |old(calls)| <= j < |calls| ==> !calls[j].IsTransfer()
      ensures mapped ==> ok && calls == old(calls)
      ensures !mapped ==> calls == old(calls) + if state == Open then [] else [SyncPtr(ok)]
    {
      if mapped {
        return true;
      }
      var answer: bool := *;
      ghost var before := calls;
      ok := Ioctl(SyncPtr(answer));
      NoTransfers(before, calls);
    }

    /** `pcm_state`: the state SYNC_PTR brings, or else what the plugin's status page says, whatever that is. */
    method State() returns (known: bool, st: PlugState)
      requires Valid()
      modifies this
      ensures Valid() && state == old(state) && xruns == old(xruns) && mapped == old(mapped)
      ensures known && !mapped ==> st == state
      ensures mapped ==> known && calls == old(calls)
      ensures !mapped ==> calls == old(calls) + if state == Open then [] else [SyncPtr(known)]
      ensures old(calls) <= calls && CountTransfers(calls) == CountTransfers(old(calls))
      ensures forall j :: |old(calls)| <= j < |calls| ==> !calls[j].IsTransfer()
    {
      known := SyncPointers();
      st := state;
      if mapped {
        st := *;
      }
    }

    /** `pcm_stop`. */
    method Stop() returns (ok: bool)
      requires Valid()
      modifies this
      ensures Valid() && calls == old(calls) + [DropCall(ok)] && xruns == old(xruns)
      ensures mapped == old(mapped) && state == if ok then Setup else old(state)
    {
      var answer: bool := *;
      ok := Ioctl(DropCall(answer));
    }

    /**
     `pcm_close`: the pages are unmapped first, which reaches the plugin only in SETUP; a stream with a mapped
     buffer is then stopped and its buffer unmapped, which reaches it exactly when the stop succeeded or the
     stream was in SETUP anyway.
     */
    method Close() returns (stopped: bool, unmapped: bool)
      requires Valid()
      modifies this
      ensures Valid() && !mapped
      ensures exists pages: seq<Call> ::
        && (if old(mapped) && old(state) == Setup
            then exists a, b :: pages == [Munmap(StatusPage, a), Munmap(ControlPage, b)] else pages == [])
        && calls == old(calls) + pages
                    + (if !old(mmapStream) then []
                       else [DropCall(stopped)] + if stopped || old(state) == Setup then [Munmap(Buffer, unmapped)] else [])
    {
      ghost var before, owner := calls, mapped && state == Setup;
      UnmapStatus();
      ghost var pages := calls[|before|..];
      assert calls == before + pages;
      assert owner ==> exists a, b :: pages == [Munmap(StatusPage, a), Munmap(ControlPage, b)] by {
        if owner {
          var a, b :| calls == before + [Munmap(StatusPage, a), Munmap(ControlPage, b)];
          assert pages == [Munmap(StatusPage, a), Munmap(ControlPage, b)];
        }
      }
      stopped, unmapped := false, false;
      if mmapStream {
        stopped := Stop();
        var answer: bool := *;
        unmapped := Ioctl(Munmap(Buffer, answer));
      }
    }

    /** `pcm_rw_transfer`. */
    method RwTransfer(write: bool) returns (ok: bool)
      requires Valid()
      modifies this
      ensures Valid() && xruns == old(xruns) && state == old(state) && mapped == old(mapped) && old(calls) <= calls
      ensures calls == old(calls) + if state in {Prepared, Running} then [if write then Writei(ok) else Readi(ok)] else []
      ensures CountTransfers(calls) == CountTransfers(old(calls)) + if state in {Prepared, Running} then 1 else 0
      ensures ok ==> state in {Prepared, Running}
    {
      var answer: bool := *;
      var call := if write then Writei(answer) else Readi(answer);
      CountAppend(calls, call);
      ok := Ioctl(call);
    }

    /** The head of `pcm_generic_transfer`: a stream that says it is in SETUP is prepared. */
    method PrepareIfSetup() returns (ok: bool)
      requires Valid()
      modifies this
      ensures Valid() && old(calls) <= calls && xruns == old(xruns) && mapped == old(mapped)
      ensures CountTransfers(calls) == CountTransfers(old(calls))
      ensures forall j :: |old(calls)| <= j < |calls| ==> !calls[j].IsTransfer()
      ensures state == old(state) || (ok && old(state) == Setup && state == Prepared)
      ensures old(state) == Setup == state && !mapped ==>
                SyncPtr(false) in calls[|old(calls)|..] || PrepareCall(false) in calls[|old(calls)|..]
    {
      var known, st := State();
      ok := true;
      ghost var asked := calls;
      if known && st == Setup {
        ok := Prepare();
        if !ok && state == Setup {
          assert calls[|asked|] == PrepareCall(false);
        }
      } else if state == Setup && !mapped {
        assert calls[|calls| - 1] == SyncPtr(false);
      }
    }

    /** The loop from `again` on: PREPARE is refused to a stream that is prepared or running. */
    method TransferAgain(write: bool, norestart: bool) returns (ok: bool)
      requires Valid()
      modifies this
      ensures Valid() && old(calls) <= calls
      ensures CountTransfers(calls) <= CountTransfers(old(calls)) + 1
      ensures ok ==> CountTransfers(calls) == CountTransfers(old(calls)) + 1
      ensures forall j :: |old(calls)| <= j < |calls| && calls[j].IsTransfer() ==> calls[j] == (if write then Writei(ok) else Readi(ok))
      ensures old(state) in {Prepared, Running} ==>
        && state == old(state) && calls == old(calls) + [if write then Writei(ok) else Readi(ok)]
        && xruns == old(xruns) + (if !ok && errno == EPIPE then 1 else 0)
    {
      hide Guarded, Replay, CountTransfers, Call.IsTransfer, Admits;
      ghost var before := calls;
      while true
        invariant Valid() && before <= calls
        invariant CountTransfers(calls) == CountTransfers(before)
        invariant forall j :: |before| <= j < |calls| ==> !calls[j].IsTransfer()
        invariant old(state) in {Prepared, Running} ==> state == old(state) && xruns == old(xruns) && calls == before
        decreases state == Setup
      {
        ok := RwTransfer(write);
        if ok || !Restarts() {
          return;
        }
        CountXrun();
        if norestart {
          return false;
        }
        var prepared := Prepare();
        if !prepared {
          return false;
        }
      }
    }

    /**
     `pcm_generic_transfer` of a read/write plugin stream. PREPARE is refused outside SETUP, so a stream
     that has xrun is never restarted: the loop ends, and the plugin's data function is reached at most once.
     */
    method Transfer(write: bool, norestart: bool) returns (ok: bool)
      requires Valid()
      modifies this
      ensures Valid() && old(calls) <= calls
      ensures CountTransfers(calls) <= CountTransfers(old(calls)) + 1
      ensures ok ==> CountTransfers(calls) == CountTransfers(old(calls)) + 1
      ensures old(state) in {Prepared, Running} ==> state == old(state) && xruns <= old(xruns) + 1
      // it goes in the direction asked for, and a stream in SETUP misses it only if it could not be told or prepared
      ensures forall j :: |old(calls)| <= j < |calls| && calls[j].IsTransfer() ==> calls[j] == (if write then Writei(ok) else Readi(ok))
      ensures old(state) == Setup && !old(mapped) && CountTransfers(calls) == CountTransfers(old(calls)) ==>
                SyncPtr(false) in calls[|old(calls)|..] || PrepareCall(false) in calls[|old(calls)|..]
      // a transfer of a prepared stream that fails with EPIPE is counted, no other is
      ensures old(state) in {Prepared, Running} && CountTransfers(calls) > CountTransfers(old(calls)) ==>
                xruns == old(xruns) + (if !ok && errno == EPIPE then 1 else 0)
    {
      hide Guarded, Replay, CountTransfers, Call.IsTransfer;
      ghost var before := calls;
      ok := PrepareIfSetup();
      if !ok {
        return;
      }
      ghost var asked, st := calls, state;
      ok := TransferAgain(write, norestart);
      if st in {Prepared, Running} {
        CountAppend(asked, if write then Writei(ok) else Readi(ok));
        OneTransfer(write, ok);
      } else {
        assert forall c :: c in asked[|before|..] ==> c in calls[|before|..];
      }
    }

    static lemma OneTransfer(write: bool, ok: bool)
      ensures (if write then Writei(ok) else Readi(ok)).IsTransfer()
    {
    }

    predicate Restarts()
      reads this
    {
      errno == EPIPE || errno == ESTRPIPE
    }

    method CountXrun()
      modifies `xruns
      ensures xruns == old(xruns) + (if errno == EPIPE then 1 else 0)
    {
      if errno == EPIPE {
        xruns := xruns + 1;
      }
    }
  }

  /** The calls of `pcm_hw_mmap_status`: both pages, or else SYNC_PTR is used and no page stays mapped. */
  ghost predicate PagesMapped(pages: seq<Call>, mapped: bool) {
    if mapped then pages == [Mmap(StatusPage, true), Mmap(ControlPage, true)]
    else
      || pages == [Mmap(StatusPage, false)]
      || exists ok :: pages == [Mmap(StatusPage, true), Mmap(ControlPage, false), Munmap(StatusPage, ok)]
  }

  function CountTransfers(calls: seq<Call>): nat {
    if calls == [] then 0
    else CountTransfers(calls[..|calls| - 1]) + (if calls[|calls| - 1].IsTransfer() then 1 else 0)
  }

  lemma CountAppend(calls: seq<Call>, call: Call)
    ensures CountTransfers(calls + [call]) == CountTransfers(calls) + (if call.IsTransfer() then 1 else 0)
  {
    assert (calls + [call])[..|calls|] == calls;
  }

  lemma {:induction false} NoTransfers(before: seq<Call>, after: seq<Call>)
    requires before <= after && forall j :: |before| <= j < |after| ==> !after[j].IsTransfer()
    ensures CountTransfers(after) == CountTransfers(before)
  {
    if |before| < |after| {
      NoTransfers(before, after[..|after| - 1]);
    } else {
      assert before == after;
    }
  }
}
