# A verified model of tinyalsa

tinyalsa is a small C library over the ALSA kernel interface. This project models the parts of
it in which state, arithmetic and concurrency meet, in Dafny 4.11, and proves what they keep,
for all inputs, all runs and all interleavings with the kernel, the hardware or a plugin.
`dafny verify dfyconfig.toml` checks everything.

| files | subject |
|---|---|
| `RingPointers`, `RingModel`, `PcmMmap`, `FrameBytes` | the mmap transfer of `src/pcm.c`: pointers modulo `boundary`, frames modulo `buffer_size`, restart after an xrun |
| `HwParams`, `PluginConfig`, `PluginLifecycle` | `src/pcm_plugin.c`: interval refinement, selection of one configuration, the state machine |
| `OptionSpec`, `OptionParser` | `utils/optparse.h`: the recursive parser that permutes argv |
| `MixerEvents` | `src/mixer_plugin.c`: the event counter and the eventfd |
| `MixerTable`, `MixerPercent` | `src/mixer.c`: incremental scan, lookups, percent conversion |
| `ParamsPrinter` | `src/pcm.c`: the printer that writes into a buffer that may be too small |
| `WaveFile` | the header of `utils/tinycap.c` and the chunk walk of `utils/tinyplay.c` |
| `CTypes`, `Wrappers` | C integer conversions on an LP64 target; a value that may be missing |

Code that updates state in place is a class or a method over arrays, and its contract ties the new
state to a value-level description: `PcmMmap.Pcm` to the machine of `RingModel`, `OptionParser.Optparse`
to the functions of `OptionSpec`, `MixerEvents.MixerPlugin` to its step machine, the refinement
loops to `HwParams.Refine`. The laws are proved of those descriptions. `Pcm` and `MixerPlugin`
record in a ghost `trace` every step they and their environment take, and `Valid()` says that the trace
is a run of the machine which ends in the present fields. Where a contract says that a stream is left alone, the
kernel has not changed its state on its own account and no call has failed.

## The environment

- `RingPointers.Shape`: the boundary the kernel stores is a multiple of the buffer size and larger than it, and
  boundary plus buffer size fits `long`.
- The hardware moves any number of frames before, between and after library steps, at each `pcm_sync_ptr` call and at each wait,
  but not past the kernel's application pointer: the kernel stops the stream first. For capture the
  default stop threshold does not ensure that, and `RingModel.OverrunLosesTheOldest` says what a frame more does.
- The kernel state may change at any such point, except back to SETUP.
- Any ioctl may fail, with any errno.
- A mixer plugin hands over only events it has notified, each once; it may drop some. Readers, notifiers and
  threads that subscribe or unsubscribe interleave freely.
- Mixer backends append elements at any time. If one removes elements, which `add_controls` calls bad, it is refused
  or the scan promises only that old entries stay.
- A plugin may or may not map the status and control pages. What it writes into a mapped status page is its own affair.

## Where the code differs from its comments and documentation

The model follows the code.

- A write starts the stream going by the room it found before it copied (src/pcm.c:1534, 1560), not by what has been
  written, as the comment at 1558 says: the write that crosses the threshold does not start the stream
  (`PcmMmap.Pcm.MmapTransfer`).
- `buffer_size` is the product of the caller's period size and count (src/pcm.c:436-437, 485-487), not the refined
  ones (`PluginConfig.BufferSizeAgrees`).
- A commit that fails has moved the application pointer, and the count of the frames moved before it is lost
  (src/pcm.c:1351-1356, 1373-1376). `commitFailures` counts these; without one the count returned is exact.
- `changed` is not reset between intervals (src/pcm_plugin.c:322), so `cmask` marks unchanged intervals after a changed
  one (`HwParams.ChangedBitsExact`). Empty intersections are not refused.
- The plugin's subformat constraint is the number of a subformat where a mask is expected (src/pcm_plugin.c:209-281), so the
  mask is empty.
- `pcm_plug_drop` has no state guard (src/pcm_plugin.c:614-624): `PluginLifecycle.ParametersAccepted`.
- A plugin stream can be prepared only in SETUP, so the restart of `pcm_generic_transfer` never succeeds on one:
  `PluginLifecycle.PlugStream.Transfer`.
- `mixer_ctl_get_id` says its result can be passed to `mixer_get_ctl` (src/mixer.c:854-857); for a
  plugin control it cannot: `MixerTable.IdLeadsBack`.
- The plugin's element list ignores the offset it is asked for (src/mixer_plugin.c:328-336): `MixerTable.ScanIsFaithful`.
- An invalid letter in a cluster leaves the cluster offset as it was (utils/optparse.h:225-229), so a client that
  carries on after a '?' may miss letters of the next cluster or read beyond it: `OptionSpec.FreshParserFails` gives
  inputs, `OptionSpec.OffsetMattersIff` when an offset left behind matters. It takes an option without an argument
  directly before the invalid letter (`OptionSpec.LostNeedsInvalid`); utils/tinymix.c:114-130 carries on after a '?' but
  stops at each of its options without an argument, so it does not get there.
- Ending a subscription clears the event counter (src/mixer_plugin.c:191-194) while a reader may hold events it has
  not counted off: then a read can wait for ever, `MixerEvents.LostWakeupIff`.
- The limits in frames of the plugin's period are not its limits in bytes (src/pcm_plugin.c:263-267): `PluginConfig.PeriodBytesWithin`,
  `PluginConfig.PeriodBoundsIff`. `PluginConfig.SelectionObeysIff` says when the plugin is handed what it said it allows.
- `pcm_close` unmaps the status and control pages before it stops the stream (src/pcm.c:982), which a plugin
  stream refuses outside SETUP: `PluginLifecycle.PlugStream.Close`.
- `parse_wave_file` does not skip the pad byte that chapter 2 of the Multimedia Programming Interface and Data
  Specifications 1.0 puts after a chunk of odd length: `WaveFile.ParsedIff`.

## Model

| member | source | states |
|---|---|---|
| `RingPointers.PlaybackAvailModulo` | src/pcm.c:1250-1262 | with its `unsigned long` and `long` conversions, playback avail is exactly (hw + size - appl) mod boundary for every pair of pointers |
| `RingPointers.CaptureAvailModulo` | src/pcm.c:1264-1272 | capture avail is exactly (hw - appl) mod boundary |
| `RingPointers.PlaybackAvailIsRoom` | src/pcm.c:1250-1262 | playback avail is the buffer size less the frames queued, when at most a buffer is queued |
| `RingPointers.ApplForwardExact` | src/pcm.c:1284-1294 | the forwarded pointer is in range, is the sum modulo boundary, and its ring offset is the old offset plus the frames modulo the buffer size, across the wrap |
| `RingPointers.AdvanceSlot` | src/pcm.c:1284-1305 | a pointer moved over the boundary lands on the cell that many cells further on |
| `RingPointers.BeginBounds` | src/pcm.c:1274-1321 | for every pair of pointers in range, sound or not: offset + frames stays within the buffer, frames is at most what was wanted and what is available modulo boundary, and is the largest such count |
| `RingModel.AvailIsComputed` | src/pcm.c:1250-1282 | in every sound state what the code computes from its own, possibly old, pointer copies is the available count of the machine |
| `RingModel.AvailIsSound` | src/pcm.c:1274-1282 | that count is between 0 and a buffer, never exceeds the real room or the real unread frames, and is exact when the snapshot is fresh |
| `RingModel.WriteKeepsInv` | src/pcm.c:1323-1341 | filling granted cells keeps every unplayed frame in place and puts the new ones right behind them |
| `RingModel.GrantIsUnread` | src/pcm.c:1296-1341 | the cells granted to a capture client hold exactly the oldest unread frames, in order |
| `RingModel.CommitAppends` | src/pcm.c:1343-1359 | frames copied into a grant and then committed join the stream as they are, whatever the hardware does in between |
| `RingModel.PullKeepsInv` | src/pcm.c:600-628 | taking the kernel's pointer back takes back exactly the frames the kernel was not told of |
| `RingModel.StepKeepsInv` | src/pcm.c:600-1359 | every step of the application, the kernel or the hardware keeps the ring invariant |
| `RingModel.RunKeepsInv` | src/pcm.c:600-1359 | so does every run, of any length and in any order |
| `RingModel.RunIsFifo` | src/pcm.c:1250-1383 | in every state of every run the frames consumed are a prefix of the frames produced, at most a buffer is pending, and every pending frame is in its cell: nothing lost, repeated, reordered or overwritten |
| `RingModel.PlaysTheNextFrame` | src/pcm.c:1323-1359 | the frame the hardware reads from the ring is the committed frame that is due |
| `RingModel.OverrunLosesTheOldest` | src/pcm.c:1264-1272 | in a full capture ring one more hardware frame overwrites the frame due next: it survives exactly if it equals the new one |
| `PcmMmap.Pcm.SyncPtr` | src/pcm.c:600-618 | after success the two application pointers agree and the status is the kernel's; without the APPL flag no frame of the history is touched, with it frames the kernel never saw are dropped; with mapped status only HWSYNC can fail; a call that succeeds brings the hardware pointer, with mapped status if it asks for it with HWSYNC |
| `PcmMmap.Pcm.MmapAvail` | src/pcm.c:1274-1282 | the `int` result read back as unsigned is the available count, even when the sync failed; after a failed commit a call whose sync succeeds tells the kernel of the frames after all; unless the sync failed, the count is the one by the kernel's own hardware pointer |
| `PcmMmap.Pcm.MmapBegin` | src/pcm.c:1296-1321 | the offset is that of the pointer, offset + frames is within the buffer, frames within what is available, and the largest such not over what was wanted; also after a failed commit |
| `PcmMmap.Pcm.CopyToRing` | src/pcm.c:1323-1341 | the granted cells, and no others, become the user's frames |
| `PcmMmap.Pcm.CopyFromRing` | src/pcm.c:1323-1341 | the user's buffer receives exactly the next unread frames, at its offset and nowhere else |
| `PcmMmap.Pcm.ApplForward` | src/pcm.c:1284-1294 | the history grows by the granted frames; with mapped control the kernel has the pointer at once, while the snapshot of the hardware pointer stays as old as it was |
| `PcmMmap.Pcm.MmapCommit` | src/pcm.c:1343-1359 | the frames are committed in both outcomes; on success the kernel has the pointer |
| `PcmMmap.Pcm.TransferOnce` | src/pcm.c:1367-1376 | one pass of the copy loop moves at least one frame, and exactly the frames of the user buffer it says |
| `PcmMmap.Pcm.TransferAreas` | src/pcm.c:1361-1383 | the loop ends on its own; the frames moved are the first of the request, in order; all of them if that many were available; a failing commit loses the count of at least one frame and not the frames |
| `PcmMmap.Pcm.State` | src/pcm.c:620-628 | on success the state is the kernel's |
| `PcmMmap.Pcm.Start` | src/pcm.c:1203-1219 | success leaves the stream running; starting moves no frame and drops none |
| `PcmMmap.Pcm.Prepare` | src/pcm.c:1187-1196 | success empties the ring and begins an epoch, also when the sync whose result is ignored fails, and if that succeeds too the pointers agree; failure changes nothing; a stream left alone is PREPARED afterwards |
| `PcmMmap.Pcm.Wait` | src/pcm.c:1450-1489 | waiting moves no frame of the application; a poll error is reported by what the state is |
| `PcmMmap.Pcm.TransferPass` | src/pcm.c:1533-1565 | one pass: what it counts, what it moves, that it stops short only for a failed call or with EAGAIN on a nonblocking stream without room, that the stream is running after a start that is due, and is left alone without one; the room is the true one for a stream left alone |
| `PcmMmap.Pcm.AwaitRoom` | src/pcm.c:1534-1548 | no room ends a pass of a nonblocking stream with EAGAIN and makes another one wait |
| `PcmMmap.Pcm.StartIfDue` | src/pcm.c:1558-1563 | the stream is started, and running, exactly if it was seen prepared and the fill before the copy reaches the threshold |
| `PcmMmap.Pcm.TransferEntry` | src/pcm.c:1514-1531 | the synchronisation at the head loses nothing of a stream whose pointers agree; a capture stream that is due is running afterwards; a prepared capture stream left alone is running exactly if enough is asked for |
| `PcmMmap.Pcm.TransferPasses` | src/pcm.c:1533-1567 | the loop: frames in order, the exact count, the causes of a short one, and on a prepared playback stream left alone one pass that completes and decides the start |
| `PcmMmap.Pcm.MmapTransfer` | src/pcm.c:1498-1568 | the history grows by exactly the first `moved` frames of the buffer; the count returned is that number if and only if no commit failed; 0 is returned exactly for 0 frames; fewer frames than asked only after a failed call, or with EAGAIN on a nonblocking stream; a write that fits into a prepared stream left alone is complete and leaves it running if the fill before it reached the threshold, and otherwise prepared; a read leaves a prepared stream running exactly if it asks for the threshold; what it returned and errno are recorded |
| `PcmMmap.Pcm.TryTransfer` | src/pcm.c:1665-1694 | a repetition happens only after nothing was reported, with EPIPE or ESTRPIPE, unless NORESTART, and after a PREPARE that emptied the ring; in that case always, unless the PREPARE fails; otherwise the ring holds what the transfer moved, also when it is reported as failed; EPIPE and ESTRPIPE are not returned unless no restart is allowed or PREPARE failed, and exactly an EPIPE adds to `xruns`; a stream left alone is PREPARED for the repetition |
| `PcmMmap.Pcm.PrepareIfSetup` | src/pcm.c:1664-1666 | a stream known to be in SETUP is prepared, no other is, and any other keeps its frames |
| `PcmMmap.Pcm.TransferAgain` | src/pcm.c:1668-1694 | the loop from `again` on: every transfer but the last reported nothing and was followed by a PREPARE that emptied the ring; the ring ends with what the last one moved, also while it is still waiting |
| `PcmMmap.Pcm.GenericTransfer` | src/pcm.c:1651-1697 | whatever is returned, and while the call is still waiting, the stream of this epoch ends with the first `moved` frames of the buffer in order, after what was there before or after nothing if it was restarted, so no frame is there twice; the count returned is that number if and only if no commit of the last transfer failed; `xruns` grows by the number of EPIPE results; NORESTART makes at most one attempt; a failure to restart and a short count have one of the causes named; errno is that of the last transfer recorded, and is neither EPIPE nor ESTRPIPE if a restart was allowed and no PREPARE failed |
| `PcmMmap.CountEpipeAdds` | src/pcm.c:1674-1677 | the count of EPIPE results adds up over transfers and is one for each that failed with it |
| `PcmMmap.Pcm.StreamIsFifo` | src/pcm.c:1250-1697 | after any sequence of calls the consumer has taken a prefix of the stream and the rest is in the ring |
| `FrameBytes.FramesToBytesExact` | src/pcm.c:594-598 | the two wrapping products are the wrapped whole product |
| `FrameBytes.FramesRoundTrip` | src/pcm.c:582-598 | frames to bytes and back is the identity exactly when the bytes fit `unsigned int` |
| `FrameBytes.BytesRoundTrip` | src/pcm.c:582-598 | bytes to frames and back is at most the bytes and less than a frame short |
| `FrameBytes.SpliceFrames` | src/pcm.c:1323-1341 | copying bytes at frame boundaries is copying frames |
| `FrameBytes.AreasCopy` | src/pcm.c:1323-1341 | when the three products fit `int`, exactly the named frames of the destination change, and to the named frames of the source, however large the buffers |
| `HwParams.RefineIsIntersection` | src/pcm_plugin.c:315-376 | a refined interval stands for the intersection of request and constraint, over the reals with open ends and integrality, exactly when closing an end does not wrap |
| `HwParams.SingleIsInteger` | src/pcm_plugin.c:357-368 | a refined interval is an integer when it is down to one value, and then has no open ends |
| `HwParams.RefineIdempotent` | src/pcm_plugin.c:315-376 | refining again changes nothing |
| `HwParams.ShrinkingChanges` | src/pcm_plugin.c:322-376 | an interval that loses a value sets `changed`, whether or not an end wraps |
| `HwParams.ChangeWithoutShrinking` | src/pcm_plugin.c:352-355 | the converse fails: an interval that becomes integer and keeps its values sets it too |
| `HwParams.ChangedBitsExact` | src/pcm_plugin.c:315-376 | every changed interval is marked in `cmask`, and the marks are exactly the changed ones if and only if no unchanged requested interval follows a changed one |
| `HwParams.RefineInterval` | src/pcm_plugin.c:331-368 | one pass of the loop computes `Refine` and `Changes` |
| `HwParams.MasksRefine` | src/pcm_plugin.c:283-313 | requested masks become the intersection, others stay; exactly those that differ from the constraint are marked |
| `HwParams.IntervalRefine` | src/pcm_plugin.c:315-376 | requested intervals are refined, others stay; `cmask` gets `ChangedBits` |
| `HwParams.HwParamsRefine` | src/pcm_plugin.c:379-400 | both, and no request is left |
| `PluginConfig.GetParams` | src/pcm_plugin.c:209-281 | the intervals and masks built from the plugin's constraints, including the derived ones and the subformat mask with no bit |
| `PluginConfig.ConstraintsCover` | src/pcm_plugin.c:223-281 | the derived intervals take in every combination of the plugin's limits, end at the extreme ones, and count buffer frames by the smallest frame |
| `PluginConfig.IntervalSelect` | src/pcm_plugin.c:427-460 | an interval whose minimum is zero is refused and left alone, any other is set to the selected value |
| `PluginConfig.SelectedEnds` | src/pcm_plugin.c:427-460 | a selected minimum or maximum is the one value left and one the interval had |
| `PluginConfig.HwParamsSet` | src/pcm_plugin.c:462-494 | the chosen parameters are at their minima, the derived ones computed from them, all others untouched |
| `PluginConfig.Hrefine` | src/pcm_plugin.c:402-425 | every interval is refined, every mask intersected |
| `PluginConfig.Hparams` | src/pcm_plugin.c:496-521 | what the plugin is handed: the request refined, then configured |
| `PluginConfig.SelectionConsistent` | src/pcm_plugin.c:462-494 | with positive minima and no overflow every parameter is one value and frame bits, buffer size, period bytes and buffer bytes satisfy their defining products |
| `PluginConfig.SelectionObeysIff` | src/pcm_plugin.c:402-521 | the configuration handed to the plugin obeys the plugin's own numeric constraints exactly when the request, raised to the minima, is not above the maxima and the bytes of the resulting period are within the limits; in the case of the fewest channels, the condition on the period in frames |
| `PluginConfig.MinimaPositive` | src/pcm_plugin.c:209-281 | from the request and the plugin's own limits, exactly when each minimum is positive |
| `PluginConfig.PeriodBytesWithin` | src/pcm_plugin.c:260-270 | with the smallest frame a period is within the limits in bytes exactly when it is within those in frames and is not the smallest one, unless the smallest frame divides the smallest byte count |
| `PluginConfig.PeriodBoundsIff` | src/pcm_plugin.c:260-270 | for a frame of any width: all periods within the limits in frames are within the limits in bytes exactly when the two ends are |
| `PluginConfig.PeriodBytesBeyond` | src/pcm_plugin.c:260-270 | two inputs for which the limits differ: more channels than the fewest, and a smallest byte count that is not whole frames |
| `PluginConfig.ReadBack` | src/pcm.c:432-487 | the period size and count read back are the larger of the request and the plugin's minimum, whatever its maximum |
| `PluginConfig.FrameBitsAgree` | src/pcm_plugin.c:462-494 | the plugin and the library mean the same frame exactly when the plugin's smallest width times the channels it is handed is the format's width times the channels asked for; with enough channels asked for, when the widths are equal |
| `PluginConfig.Pcm.SetConfig` | src/pcm.c:432-487 | what `pcm_set_config` leaves in the stream on a plugin, for a caller's configuration and for none, and when the plugin refuses |
| `PluginConfig.BufferSizeAgrees` | src/pcm.c:436-487 | with a caller's configuration the buffer size is the product of the refined factors exactly when refinement raised neither |
| `PluginLifecycle.PreparedSince` | src/pcm_plugin.c:584-624 | over every call sequence: prepared or running exactly when a PREPARE succeeded since the stream was last in SETUP |
| `PluginLifecycle.TransferOnlyWhenPrepared` | src/pcm_plugin.c:549-571 | the plugin's writei or readi is reached only after such a PREPARE |
| `PluginLifecycle.RunningSince` | src/pcm_plugin.c:599-612 | a running stream was started from PREPARED and not prepared or dropped since |
| `PluginLifecycle.CalledInOrder` | src/pcm_plugin.c:523-723 | the calls that must have gone before each call the plugin gets: DRAIN only while started and not prepared or dropped since, START only while prepared, the others only once set up, and SW_PARAMS, mmap, munmap and PREPARE only while not prepared |
| `PluginLifecycle.OpenedStays` | src/pcm_plugin.c:496-634 | a stream never goes back to OPEN |
| `PluginLifecycle.LifeAfterOpen` | src/pcm_plugin.c:496-723 | after a successful `pcm_open` the state is SETUP, PREPARED or RUNNING and the parameters are never set again |
| `PluginLifecycle.ParametersAccepted` | src/pcm_plugin.c:496-624 | a stream past OPEN was given its parameters exactly when its first change of state was not a DROP |
| `PluginLifecycle.DropSkipsParameters` | src/pcm_plugin.c:614-624 | the guards of the plugin side admit a DROP, a PREPARE and a write with no parameters set; no caller of src/pcm.c can issue that sequence, since it has no stream before HW_PARAMS succeeded |
| `PluginLifecycle.PlugStream.Ioctl` | src/pcm_plugin.c:523-691 | which calls reach the plugin in which state, and the state after each |
| `PluginLifecycle.PlugStream.OpenStream` | src/pcm.c:1050-1133 | after a successful open the stream is in SETUP, and the plugin was called for exactly: parameters, the buffer if asked, software parameters, the status and control pages, the time stamps if asked |
| `PluginLifecycle.PlugStream.SetConfig` | src/pcm.c:432-539 | the calls of a successful configuration, in order |
| `PluginLifecycle.PlugStream.MapStatus` | src/pcm.c:630-664 | both pages stay mapped or neither does |
| `PluginLifecycle.PlugStream.UnmapStatus` | src/pcm.c:666-679 | mapped pages are given back to the plugin exactly in SETUP |
| `PluginLifecycle.PlugStream.SyncPointers` | src/pcm.c:600-618 | with mapped pages there is no call and no failure |
| `PluginLifecycle.PlugStream.Prepare` | src/pcm.c:1187-1196 | succeeds only from SETUP, and changes nothing otherwise |
| `PluginLifecycle.PlugStream.State` | src/pcm.c:620-628 | asking for the state changes none and transfers nothing; the answer of SYNC_PTR is the state, that of a mapped page is whatever the plugin wrote |
| `PluginLifecycle.PlugStream.Stop` | src/pcm.c:1242-1248 | the DROP always reaches the plugin |
| `PluginLifecycle.PlugStream.Close` | src/pcm.c:977-995 | the exact calls: the pages are unmapped only in SETUP; a stream with a buffer is stopped, and the unmapping of the buffer reaches the plugin exactly when the stop succeeded or the stream was in SETUP |
| `PluginLifecycle.PlugStream.RwTransfer` | src/pcm.c:1631-1649 | data reaches the plugin exactly in PREPARED or RUNNING, by writei for a write and readi for a read |
| `PluginLifecycle.PlugStream.PrepareIfSetup` | src/pcm.c:1664-1666 | a stream in SETUP is prepared, or SYNC_PTR or PREPARE failed |
| `PluginLifecycle.PlugStream.TransferAgain` | src/pcm.c:1668-1694 | a prepared or running stream makes one transfer and stays in its state |
| `PluginLifecycle.PlugStream.Transfer` | src/pcm.c:1651-1697 | the restart loop ends after at most one transfer, since a PREPARE is refused outside SETUP; it goes in the direction asked for; a stream in SETUP that does not get there could not be told or not be prepared; exactly an EPIPE of a prepared stream adds to `xruns` |
| `OptionSpec.FromLongDecodes` | utils/optparse.h:180-192 | reading the option string built from a table gives, for every letter, the type of the first entry with it, or none |
| `OptionSpec.FromLongLength` | utils/optparse.h:284-331 | the string has at most three characters for each short name, so that of any table with up to 96 of them and its NUL fit the 289 bytes |
| `OptionSpec.NameAndValue` | utils/optparse.h:301-321 | name and value put together with `=` are the option, and the name has no `=` |
| `OptionSpec.NamedValue` | utils/optparse.h:301-321 | and are found again in an option put together of them |
| `OptionSpec.FindLongIsFirst` | utils/optparse.h:377-380 | the entry found is the first with the name; none is found only if there is none |
| `OptionSpec.TableTypeIsFirst` | utils/optparse.h:180-192 | the type of a letter is that of the first entry with it |
| `OptionSpec.FormsOfArguments` | utils/optparse.h:152-168 | an argument that begins with a dash and goes on is exactly one of `--`, a short and a long option, and no other is any of them |
| `OptionSpec.NextProgress` | utils/optparse.h:196-264 | every call but the last consumes an argument or moves on inside one, whether it returns an option or an error |
| `OptionSpec.NextReady` | utils/optparse.h:196-264 | an option leaves the cluster offset on a letter of the same cluster or at zero |
| `OptionSpec.InvalidKeepsOffset` | utils/optparse.h:225-229 | for all inputs: an invalid letter, and every error of a long option, leaves the offset as it was, and only a missing argument of a short option resets it; whether the next call is within bounds is then a matter of that offset and the next short option reached |
| `OptionSpec.OffsetMattersIff` | utils/optparse.h:225-229 | for option strings and for longopts tables: calling on with an offset left behind does what a fresh parser does, for all meanings of the letters alike, exactly when the offset is zero or no cluster still to come, past long options and the arguments they use up, is affected by it |
| `OptionSpec.OffsetGetsLost` | utils/optparse.h:218-229 | from any offset: the calls read beyond the next cluster reached if that has fewer letters than the offset, and do what a fresh parser does if none is reached |
| `OptionSpec.FreshParserFails` | utils/optparse.h:225-229 | with the options of tinymix a fresh parser that carries on misses the option of `-vx -h` and reads beyond the argument of `-vvx -h` |
| `OptionSpec.LostNeedsInvalid` | utils/optparse.h:196-264 | a parser started without an offset reads beyond an argument only after an option without an argument directly followed by an invalid one |
| `OptionSpec.IterateSkips` | utils/optparse.h:209-218 | passing a non-option over and putting it back on every call amounts to setting it aside once |
| `OptionSpec.IterateCluster` | utils/optparse.h:219-264 | the calls inside a cluster report its letters one by one and consume the argument with the last |
| `OptionSpec.IterateIsScan` | utils/optparse.h:196-400 | calling until -1, from any offset and through any errors, reports, consumes and leaves exactly what a one-pass parser that moves nothing reads off, with and without permutation, for short and long options, and reads beyond an argument where it does |
| `OptionSpec.WrittenIsRead` | utils/optparse.h:196-400 | round trip: any options a table allows, written out as clusters, with attached or separate arguments, or with long names and `=`, then `--` and operands, are reported as they were meant and leave the operands |
| `OptionSpec.MisusesAreReported` | utils/optparse.h:377-399 | an unknown long option, one argument too many and a missing one are each refused for what they are; a missing argument is taken from the next one if there is any |
| `OptionSpec.ScanParts` | utils/optparse.h:170-178 | errors or not, argv is stably parted: consumed arguments first, then the operands, each in the original order |
| `OptionSpec.SelectKeepsAll` | utils/optparse.h:170-178 | the parts together are a permutation of the arguments |
| `OptionSpec.OperandsAreNonoptions` | utils/optparse.h:204-218 | an operand is a non-option or stands after a consumed `--` |
| `OptionParser.ArgTypeScan` | utils/optparse.h:180-192 | the loop computes the declared type |
| `OptionParser.BuildOptString` | utils/optparse.h:284-297 | the loops build the option string of the table |
| `OptionParser.LongoptsMatch` | utils/optparse.h:301-310 | matches exactly when the name is the part before the first `=` |
| `OptionParser.LongoptsArg` | utils/optparse.h:314-321 | the value is what follows the first `=`, without it (`OptionSpec.NameAndValue`) |
| `OptionParser.Optparse.Permute` | utils/optparse.h:171-178 | in place, one argument moves behind the others up to `optind`; the rest of argv is unchanged |
| `OptionParser.Optparse.Unskip` | utils/optparse.h:210-215 | what the recursive case leaves once it has put the non-option back |
| `OptionParser.Optparse.ShortOption` | utils/optparse.h:219-264 | the switch on the argument type: new argv, `optind`, offset, `optarg`, `optopt`, result |
| `OptionParser.Optparse.Optparse` | utils/optparse.h:196-264 | whenever the offset is inside the short option reached or none is reached, a call does to argv and the parser what `Next` says; `optarg` and `optopt` are those of the result; the recursion ends by the distance to the NULL |
| `OptionParser.Optparse.LookUp` | utils/optparse.h:377-380 | the first matching entry is found |
| `OptionParser.Optparse.LongOption` | utils/optparse.h:371-400 | a long option with its argument, or its error |
| `OptionParser.Optparse.OptparseLong` | utils/optparse.h:346-400 | a call of the long parser does what `Next` says, from any offset a call may find; at the end `optarg` and `optopt` are left alone |
| `OptionParser.Optparse.ParseAll` | utils/tinymix.c:114-130 | the client loop that carries on after errors returns the reports of the one-pass parser and leaves argv parted with `optind` at the split, or gets lost where it does |
| `MixerEvents.StepKeepsInv` | src/mixer_plugin.c:140-202 | every step keeps the balance and every unread event counted, a Clear exactly when no event is unread |
| `MixerEvents.StepKeepsBalance` | src/mixer_plugin.c:140-202 | every critical section, eventfd call and plugin step keeps the balance, in `unsigned` arithmetic, and exactly unless a counter below zero is cleared |
| `MixerEvents.RunKeepsBalance` | src/mixer_plugin.c:140-202 | counter + owed reads == eventfd value + notifiers between unlock and write, in every state reachable in any way, for any number of threads, modulo 2^32; exactly if no counter below zero was cleared |
| `MixerEvents.RunKeepsInv` | src/mixer_plugin.c:140-202 | as long as subscriptions are ended with no event unread, every unread event stays counted |
| `MixerEvents.RunLedger` | src/mixer_plugin.c:140-168 | over every run each notification is in the callback, counted and not signalled, a token, or a token taken |
| `MixerEvents.CallbackGone` | src/mixer_plugin.c:186-189 | over every run the callback that was removed is called no more until someone subscribes |
| `MixerEvents.NoLostWakeup` | src/mixer_plugin.c:166-168 | in such runs an owed read can block only while a notifier is about to write |
| `MixerEvents.LostWakeupIff` | src/mixer_plugin.c:160-198 | exactly: at the moment the counter is cleared, no later read can be starved if and only if no event notified is unread |
| `MixerEvents.DrainsCompletely` | src/mixer_plugin.c:140-196 | pending writes and owed reads always go on, until what is left are the reads a counter below zero stands for |
| `MixerEvents.QuietStays` | src/mixer_plugin.c:188-202 | with no callback and no event counted it stays so until someone subscribes |
| `MixerEvents.UnsubscribeLeavesNothing` | src/mixer_plugin.c:188-202 | after an unsubscription with no more notifiers in the callback than events in readers' hands both counters are 0 at rest |
| `MixerEvents.LateNotifier` | src/mixer_plugin.c:140-202 | and only then: with more notifiers some run comes to rest with the difference in both counters |
| `MixerEvents.ReadDuringUnsubscribe` | src/mixer_plugin.c:150-202 | from every start with two threads a run leads to a read that waits for ever and a counter of -1 |
| `MixerEvents.MixerPlugin.NotifierCb` | src/mixer_plugin.c:140-146 | an event is counted, then signalled, with anything in between |
| `MixerEvents.MixerPlugin.EventfdRead` | src/mixer_plugin.c:167 | one token is taken, or the call waits with no write under way, which takes a subscription not ended cleanly |
| `MixerEvents.MixerPlugin.ReadEvent` | src/mixer_plugin.c:150-172 | exactly one token is taken for each event handed over, or the call waits as above |
| `MixerEvents.MixerPlugin.Unsubscribe` | src/mixer_plugin.c:188-198 | the callback goes first; exactly the events counted when the counter is cleared are read off, or the call waits as above; the plugin has no callback afterwards unless another thread subscribed |
| `MixerEvents.MixerPlugin.SubscribeEvents` | src/mixer_plugin.c:174-202 | when something changes and what, the refusal of other values, and the value handed back; after a subscription the plugin has the callback, after an unsubscription it has none unless another thread has subscribed since |
| `MixerTable.CtlGroup.Realloc` | src/mixer.c:166-176 | the old entries survive growing |
| `MixerTable.CtlGroup.FetchInfos` | src/mixer.c:221-243 | the loop ends at the first call that fails and keeps a correct prefix |
| `MixerTable.CtlGroup.AddControls` | src/mixer.c:178-249 | whatever fails, no old entry changes and every new one is the element listed for its place; success means all elements that were there at the start, and is missed only by a failed call or a backend that has fewer elements than were found; every control fetched before that is kept and counted |
| `MixerTable.ScanIsFaithful` | src/mixer_plugin.c:316-339 | the table is the beginning of the backend when the lister honours the offset or the table was empty; for distinct elements, and if anything was added, only then |
| `MixerTable.Rescan` | src/mixer.c:178-249 | any number of scans, failing anywhere, keep the table a growing prefix; one that succeeds holds all that was there when it began, and is the table of one clean scan if nothing came after |
| `MixerTable.MatchesAreMatches` | src/mixer.c:414-445 | the positions of a name are all of them, each once, in increasing order |
| `MixerTable.Mixer.AddNewCtls` | src/mixer.c:356-379 | `total_count` stays the sum of the group counts, also when a group fails; each group keeps all that was fetched for it and is complete unless it was refused or one of its own calls failed, so the plugin group is scanned in any case; success exactly when neither happened |
| `MixerTable.Mixer.GetCtl` | src/mixer.c:646-694 | ids below `total_count`, and no others, name controls, hardware first, without gaps |
| `MixerTable.Mixer.GetNumCtlsByName` | src/mixer.c:414-445 | the number of ids with the name |
| `MixerTable.Mixer.FindInGroup` | src/mixer.c:719-761 | the count-down loop over one group finds match number `index` or what is left of it |
| `MixerTable.Mixer.NamedMatches` | src/mixer.c:414-445 | a control has a name exactly when it is at one of the positions counted under it |
| `MixerTable.Mixer.GetCtlByNameAndIndex` | src/mixer.c:719-761 | non-NULL exactly when the count exceeds the index, and then the match of that number in the order of the ids, across both groups; it has the name asked for, and the first is missing only if no control has it |
| `MixerTable.IdLeadsBack` | src/mixer.c:849-858 | the id a control reports leads back to it exactly when its number is its place among all controls plus one; never for a plugin control, which is numbered from 0 in its own list |
| `MixerPercent.PercentToIntExact` | src/mixer.c:938-947 | no overflow, and within the range |
| `MixerPercent.IntToPercentExact` | src/mixer.c:949-957 | no overflow for any range that fits `int`, and within 0 to 100 |
| `MixerPercent.PercentRefused` | src/mixer.c:942-956 | what is no percentage is answered with -EINVAL, and an empty range is 0 percent |
| `MixerPercent.PercentMonotone` | src/mixer.c:938-947 | monotone, with exact ends |
| `MixerPercent.PercentRoundTrip` | src/mixer.c:938-957 | a percentage never comes back larger, comes back the same exactly when 100 divides range times percent, and at most one smaller for a range of at least 100 |
| `MixerPercent.ValueRoundTrip` | src/mixer.c:938-957 | a value comes back at most itself and by less than range/100 + 1 smaller |
| `ParamsPrinter.ShowsOn` | src/pcm.c:76-79 | text put at the clipped offset continues the text before it, whether or not it still fits |
| `ParamsPrinter.DigitsAreRead` | src/pcm.c:946-958 | a number printed is read back, with no zero in front |
| `ParamsPrinter.HexIsRead` | src/pcm.c:912-917 | a mask word printed is read back, from at least eight characters |
| `ParamsPrinter.LinesTell` | src/pcm.c:944-958 | a line tells both ends of its range: different ranges are different lines |
| `ParamsPrinter.MaskTestIsBit` | src/pcm.c:890-900 | the bits tested are those of the words: the powers of two of a word's bits add up to it |
| `ParamsPrinter.NameIsShown` | src/pcm.c:919-923 | the name of every bit that is set is shown, behind those of the lower bits |
| `ParamsPrinter.MaskTextBegins` | src/pcm.c:911-918 | a mask with fewer than 32 names begins with its name and first word, any other with its words in order, each with its number |
| `ParamsPrinter.PaddedToTheRight` | src/pcm.c:912-922 | a name is set to the right of its column and never cut |
| `ParamsPrinter.WordsSuffice` | src/pcm.c:914 | the words printed are the fewest that hold a bit for every name |
| `ParamsPrinter.Strlog` | src/pcm.c:76-79 | the offset is the full length so far, the buffer shows the beginning that fits, nothing outside changes |
| `ParamsPrinter.PrintMask` | src/pcm.c:902-925 | the same for the lines of a mask, words and names of the bits set |
| `ParamsPrinter.PrintMaskAfter` | src/pcm.c:932-943 | the same through a nested call that is given what is left |
| `ParamsPrinter.ParamsToString` | src/pcm.c:927-960 | for every content and size the length of the full text is returned and the buffer holds its first min(length, size - 1) characters and a NUL, and nothing behind `size` is written |
| `WaveFile.FmtRoundTrip` | utils/tinyplay.c:88-97 | a format chunk is read back as it was written |
| `WaveFile.LeBytes` | utils/tinycap.c:202 | numbers are written least significant byte first |
| `WaveFile.Identifiers` | utils/tinycap.c:41-44 | the identifiers spell RIFF, WAVE, fmt and data in the file |
| `WaveFile.Ctx.ParseWaveFile` | utils/tinyplay.c:131-171 | the loop ends on any file and gives the result or the error of the walk, after as many passes |
| `WaveFile.FileIsParsed` | utils/tinyplay.c:131-171 | whatever list of chunks that can be stepped over comes before the data, the data chunk of the file and the last format are found |
| `WaveFile.ParsedIff` | utils/tinyplay.c:131-171 | the chunk before the data is stepped over, and the data found where they are, exactly when it has even length, or is a format of 15 bytes, or of at least 16 and even length |
| `WaveFile.FoundBehind` | utils/tinyplay.c:143-168 | the data found are behind the header the walk stands at or behind a later one |
| `WaveFile.PassesBounded` | utils/tinyplay.c:143-168 | each pass consumes a chunk header of 8 bytes of its own, so there are at most an eighth as many passes as bytes |
| `WaveFile.CaptureSample` | utils/tinycap.c:258-276 | the frames counted are those written, and the first batch that completes the time is the last |
| `WaveFile.TimeUpMeans` | utils/tinycap.c:264 | the time is up when that many seconds of frames have come |
| `WaveFile.Tinycap` | utils/tinycap.c:153-202 | the file is the header followed by the data, for the widths 16, 24 and 32 and no other |
| `WaveFile.HeaderIsFile` | utils/tinycap.c:45-59 | the fields of the header in their order are a RIFF header, a format chunk and a data chunk header |
| `WaveFile.HeaderOffsets` | utils/tinycap.c:45-59 | every field of the header is at its byte offset of the format |
| `WaveFile.HeaderAddsUp` | utils/tinycap.c:179-201 | when nothing is truncated the byte rate is the rate times the frame, and the RIFF size that of the file less eight |
| `WaveFile.CaptureIsPlayed` | utils/tinycap.c:153-202 | a captured file, also with chunks added around its format, is read back with its 16-bit channel count, rate, bits and data size; the sample format is recovered exactly for 16 and 32 bits |
| `WaveFile.FormatHasItsBits` | utils/tinyplay.c:115-129 | the format for a number of bits has that number, and there is one exactly for 8, 16, 24 and 32 |
| `WaveFile.SizeOfData` | utils/tinycap.c:198-202 | the size in the header is that of the data exactly when there are none, or a frame is below 65536 bytes and all of them below 2^32 |

## Left out

- PcmMmap.Pcm.MmapTransfer: waits are bounded by a `fuel` parameter; a call still waiting when it is used up is `Unfinished`, of which the ring and the frames moved so far are stated and no return value. The restarts of `GenericTransfer` are bounded in the same way.
- PcmMmap.Pcm.Start: modelled for streams that have left SETUP, which is how a transfer calls it; the PREPARE inside `pcm_start` is not reached there.
- PcmMmap.Pcm.SyncPtr: sending the kernel a pointer from before a PREPARE whose own synchronisation failed; the ring then holds no stream that could be stated. `MmapAvail` and `MmapBegin` leave out that state for the same reason; `RingPointers.BeginBounds` covers it.
- PcmMmap.Pcm.Wait: polling, timeouts, interrupts and time stamps; a wait is a stretch of hardware steps, an error, or the state behind a poll error.
- PcmMmap.Pcm.CopyToRing: one `memcpy` is one step, and a frame is one value; `FrameBytes.AreasCopy` relates frames to bytes.
- PcmMmap.Pcm.GenericTransfer: the read/write mode of a kernel stream, whose data the kernel moves; `xruns` is unbounded; `pcm_writei` and the other wrappers around it.
- RingModel.StepKeepsInv: a hardware that passes the kernel's application pointer, an underrun or overrun the kernel does not stop, is not a step.
- HwParams.MasksRefine: masks, `rmask` and `cmask` are sets of bit positions, not words.
- PluginConfig.Pcm.SetConfig: thresholds, software parameters, the mmap of the buffer, PCM_NOIRQ, and kernel streams, whose refinement is the kernel's.
- PluginLifecycle.PlugStream.Ioctl: a plugin that changes the stream's state by itself, DRAIN beyond its guard, and the calls that have no guard and no effect on the state: INFO, poll, HWSYNC, open and close.
- OptionParser.Optparse.Optparse: a call whose offset is beyond the end of the short option it reaches, where C reads outside the argument; `longindex`, the text of `errmsg`, and `optparse_arg`.
- OptionParser.Optparse.ParseAll: asks before each call whether it stays within the argument, which no client can; that is where the result `lost` comes from.
- OptionSpec.IterateIsScan: for a table whose short names are not NUL or the colon; an `int` short name that does not fit `char`.
- MixerEvents.MixerPlugin.ReadEvent: a counter above INT_MAX; poll, and closing while subscribed.
- MixerTable.CtlGroup.AddControls: what is added while the backend removes elements during the scan, allocation failure, the group opening that fails, enumerated names, and element values, which are read and written around an ioctl.
- ParamsPrinter.ParamsToString: name tables with missing names print as glibc prints them; a mask that cannot be had (NULL) prints nothing.
- WaveFile.FileIsParsed: for a pipe, which cannot be sought in, only the chunks that need no skipping are covered.
- WaveFile.CaptureSample: a read or a file write that fails; capture to standard output without a header.
- Opening of devices, dlopen, `pcm_hw.c`, `mixer_hw.c`, `snd_card_plugin.c`: replaced by the environment above.
- `tinymix`, `tinypcminfo`, `tinywavinfo`, format tables and simple getters: no property that spans operations.
