# Verified models of RustDesk's stateful client code

RustDesk has several pieces of code that forget or rewrite their own state while they work and
must still agree with a simple description. This project models nine of them in Dafny and proves
that they do, for every input, every run and every schedule.

| file | models |
|---|---|
| `ResampledStream.dfy`, `AudioResampler.dfy` | the streaming linear resampler and the wrapper that cuts its output into equal packets |
| `TransportRace.dfy` | the race of a WebRTC attempt against a `select_ok` of other attempts, with a held relay and a preference window |
| `OffererOwnership.dfy` | who closes the WebRTC offerer's peer connection on every path, cancellation included |
| `AudioBuffer.dfy` | the overwriting PCM ring, its watermark histogram and the decision to skip ahead |
| `IceBridge.dfy` | the ICE candidate bridge with its `swap_remove` resend list, and the bounded inbound buffer |
| `VideoDecodeFailures.dfy` | the decode-failure counter and the list of unsupported formats |
| `LoginPassword.dfy` | where a login's password comes from and which passwords get saved |
| `BuildScanners.dfy` | the two chunked file scanners of the build script |
| `CustomServers.dfy`, `LicenceNames.dfy` | server settings or a licence read back from an installer's file name |
| `Arithmetic.dfy`, `Sequences.dfy`, `Strings.dfy`, `Wrappers.dfy` | arithmetic, sequence and string operations, `Option` |

The code changes its state step by step, so most of the model consists of classes and methods
with loops. Each method is proved against functions or predicates over the whole history (the
stream heard so far, the events taken so far, the levels recorded since the last pass), and the
promises of the source are then lemmas about those.

How the outside world enters:

* Audio samples are an abstract type and the interpolation of two samples is an arbitrary function
  of (current, next, fraction, output rate), so equality of streams is equality bit for bit.
* A run of the race is a schedule of timed completions and timer ticks in the order the loop takes
  them. Every choice `tokio::select!` can make is some legal schedule. `select_ok` keeps a failure
  to itself until the last attempt of its set fails.
* Every await in the ownership model has a nondeterministic outcome, and each may be the point
  where the future is dropped. A guard is the peer connection it is armed with, or `null`.
* SHA-256 is an arbitrary function with non-empty results; the decoding behind the licence form of
  a file name is an arbitrary partial function; clocks and decode results are inputs.

## What the code does not do

Several promises of the code, its comments or its names hold only under a condition. Each condition
below is exact.

* The packet buffer reserved in `new` keeps its capacity in every run of regular chunks
  (`RunsKeepCapacityIff`, with the capacity `ProcessPackets` ends with) exactly if the most frames any
  run leaves pending and the frames of the largest regular chunk that is accepted are together at most
  two packets (`PreallocationExactly`; the most frames pending is worked out with a greatest common
  divisor, and `PendingBounded` and `PendingAttained` show that it is right). That holds when the rate
  at most doubles or packets hold whole input frames; it fails for 1 to 3 Hz and one-frame packets. The
  input buffer keeps its capacity at all rates (`InputNeverGrows`).
* The frames reserved for are the least number that determines a whole packet more from wherever the
  stream stands (`InputFramesPerPacketLeast`), but from its very start exactly if F*in modulo out, or
  out if that is 0, is at most in (`FirstPacketFilledIff`), which fails for 1 to 3 Hz
  (`FirstPacketShort`).
* A call overflows the 64-bit position exactly if the peak of the position does not fit
  (`ProcessInto`). The capacity check of the call does not prevent that (`PositionCanOverflow`).
  What happens then depends on the build: with overflow checks the addition panics, without them it
  wraps. Nothing is promised about its samples.
* At a given rate and number of channels, every skip that a histogram with the level of the moment in
  it can call for keeps whole frames exactly for mono, for stereo, and when a fortieth of the rate is a
  whole number and, for an odd number of channels, an even one (`SkipsStayAlignedIff`; `PlayFrames` and
  `SplitFrames` are whole runs of either kind). So 48 kHz is safe for all formats, and 44.1 kHz splits
  the frames of everything but mono and stereo (`AlignedAtEveryRateIff`).
* The digest of a shared password is saved exactly if passwords are remembered and either a verified
  switch-back has reset its tag, in this session or in one that passed the password on by a token, or
  the digest under the salt of this login is another one (`HandlePeerInfo`). `SwitchBackSavesShared`,
  `LaterSessionSavesShared` and `ChangedSaltSavesShared` are runs that get there.
* Whatever the blocks a file is read in, the version scan reports its maximum exactly if there is
  nothing to report or some window shows a whole match that captures it (`MaximumSeenExactly`). All
  blocks that cover the overlap do so exactly if there is nothing to report or some number of at most
  nine digits attains the maximum (`AlwaysReportedIff`). Read in blocks of a mebibyte, a longer number
  that ends just past a block is cut (`FullReadsCutNumber`).
* Settings with a host, written as labels and values into a file name, come back exactly if none of
  them contains a comma, the last one does not end in `.exe` (unless a comma or two extensions
  follow), and every other one that is not empty has a field after the one that holds the first
  `host=` (`SettingsComeBack`). A field in front of that one is not read (`KeyBeforeHostIsLost`).
* A licence code after an application name without a dash and `-licensed-` comes back, unless the
  application name alone already gives it, exactly if the name holds no `host=`, and the code does not
  end in `.exe` (unless two extensions follow), has no white space at its ends, does not start
  with a dash, and holds neither `--` nor `-licensed-` (`LicenceComesBackIff`). One that starts with
  a dash is read without it (`LeadingDashIsLost`), although the URL-safe alphabet of these codes
  contains the dash.

## Model

| member | source | states |
|---|---|---|
| `ResampledStream.FrameAvailable` | src/audio_resampler.rs:194-200 | The availability test on the buffer (frame and, for a fraction, its successor present) means exactly k < floor((N-1)*out/in)+1, with N the input frames and k the output frame |
| `ResampledStream.ResampledSample` | src/audio_resampler.rs:165-209 | n frames resample to floor((n-1)*out/in)+1 frames, none for n = 0, and sample by sample frame k interpolates input frame floor(k*in/out) and, for a fraction, its successor |
| `ResampledStream.OutputSample` | src/audio_resampler.rs:193-209 | Sample `channel` of output frame k of the whole-stream formula interpolates input frames floor(k*in/out) and, for a fraction, its successor, wherever the frame lies in the output |
| `ResampledStream.ResampledLength` | src/audio_resampler.rs:165-179 | N input frames resample to exactly floor((N-1)*out/in)+1 frames, none for N = 0 |
| `ResampledStream.ResampledPrefix` | src/audio_resampler.rs:165-179 | More input never changes what was already determined: the resampled stream only grows |
| `ResampledStream.ChunkingDoesNotMatter` | src/audio_resampler.rs:165-218 | The output of any run of calls, rejected ones included, equals the formula on all accepted input, and equals that of one call on it |
| `ResampledStream.EmissionBound` | src/audio_resampler.rs:181-191 | A call with n frames emits at most floor(n*out/in)+1 frames, wherever the stream stands |
| `ResampledStream.ReservedSpaceSuffices` | src/audio_resampler.rs:171-191 | `output_capacity` leaves room for at least one frame more than the call can write |
| `ResampledStream.RejectionExactly` | src/audio_resampler.rs:171-191 | A chunk is accepted iff it consists of whole frames, n*out fits in 64 bits and so does (n*out/in + 2)*channels; otherwise the error is that of the first of these that fails |
| `ResampledStream.OrdinaryChunksAccepted` | src/audio_resampler.rs:171-191 | Up to 65535 whole frames are accepted at every valid configuration |
| `ResampledStream.InputFramesPerPacketLeast` | src/audio_resampler.rs:60-63 | The frames reserved for are the least number that determines a whole packet more from every position but the very start |
| `ResampledStream.FirstPacketFilledIff` | src/audio_resampler.rs:60-63 | ... and from the start too iff F*in modulo out (out if that is 0) is at most in, as it is when the rate does not rise |
| `ResampledStream.FirstPacketShort` | src/audio_resampler.rs:60-63 | ... which fails for rates 1 to 3 and three-frame packets |
| `ResampledStream.PendingBounded` | src/audio_resampler.rs:84-89 | No run ever leaves more than `MaxPending` frames pending |
| `ResampledStream.PendingAttained` | src/audio_resampler.rs:84-89 | After some number of input frames exactly `MaxPending` frames are pending |
| `ResampledStream.SingleFramesAccepted` | src/audio_resampler.rs:165-172 | Single frames are never rejected, so a run of regular calls can stand at any number of frames |
| `ResampledStream.AdmissibleIff` | src/audio_resampler.rs:181-191 | The capacity check lets a number of frames pass iff it is at most the closed form `MaxAdmissible` |
| `ResampledStream.PreallocationExactly` | src/audio_resampler.rs:53-75 | The pending buffer of `new` holds every accepted regular call in every run iff `MaxPending` plus the frames of the largest such call is at most 2F |
| `ResampledStream.RunsKeepCapacityIff` | src/audio_resampler.rs:60-83 | No run of regular chunks ends with a packet buffer larger than the one `new` reserves iff that condition holds |
| `ResampledStream.PreallocationSuffices` | src/audio_resampler.rs:60-67 | That condition holds when out <= 2*in or out divides F*in |
| `ResampledStream.PreallocationCanFail` | src/audio_resampler.rs:60-67 | It fails for rates 1 to 3 and one-frame packets |
| `ResampledStream.PositionBound` | src/audio_resampler.rs:174-176 | The position within a call with n frames stays at most n*out + in, however long the stream |
| `ResampledStream.PositionCanOverflow` | src/audio_resampler.rs:171-176 | An input passes the capacity check although the peak of the position in that call, which decides about overflow, is past 2^64-1 |
| `AudioResampler.ValidateConfig` | src/audio_resampler.rs:221-226 | A configuration is accepted exactly if both rates and the channel count are positive |
| `AudioResampler.StreamingLinearAudioResampler.New` | src/audio_resampler.rs:156-163 | A resampler that has heard nothing, or the configuration error |
| `AudioResampler.StreamingLinearAudioResampler.PositionInStream` | src/audio_resampler.rs:195-197 | Frame and fraction computed from the rebased position are those of the next output frame in the whole stream |
| `AudioResampler.StreamingLinearAudioResampler.NextSample` | src/audio_resampler.rs:202-207 | The two samples read from the leftover buffer are the ones the whole stream prescribes |
| `AudioResampler.StreamingLinearAudioResampler.WriteNextFrame` | src/audio_resampler.rs:193-209 | A frame is written iff the stream determines another one, and it is that frame of the whole stream |
| `AudioResampler.StreamingLinearAudioResampler.WriteAvailableFrames` | src/audio_resampler.rs:174-176 | The loop overflows the position iff its final value does not fit in 64 bits; otherwise it writes exactly the missing frames and ends at that value |
| `AudioResampler.StreamingLinearAudioResampler.DiscardConsumedFrames` | src/audio_resampler.rs:211-218 | Dropping input and rebasing keeps discarded*out + position = emitted*in, leaves at most one frame buffered and the position below max(in, out) |
| `AudioResampler.StreamingLinearAudioResampler.ProcessInto` | src/audio_resampler.rs:165-179 | A rejected call changes nothing; an accepted one overflows iff the peak position does not fit, and otherwise appends exactly what the formula adds for its input within the reserved capacity |
| `AudioResampler.ProcessChunks` | src/audio_resampler.rs:118-179 | A new resampler given any chunks emits the formula on all accepted input, and does not overflow if every chunk has n*out + in below 2^64 |
| `AudioResampler.StreamingLinearAudioResampler.OneFrameBuffered` | src/audio_resampler.rs:211-218 | Between calls at most one frame stays buffered |
| `AudioResampler.StreamingLinearAudioResampler.ReserveInput` | src/audio_resampler.rs:133-143 | Room for the frames plus a margin of two, or an overflow error, with the contents unchanged |
| `AudioResampler.FixedFrameAudioResampler.New` | src/audio_resampler.rs:49-75 | Each error exactly when its check fails, in the order of the checks, otherwise a resampler with the stated capacities |
| `AudioResampler.FixedFrameAudioResampler.ProcessWith` | src/audio_resampler.rs:77-91 | Packets delivered so far followed by the pending samples are the resampled stream; a rejected input changes no state and delivers nothing; regular use keeps the initial capacity of the input buffer, and that of the packet buffer under the exact condition |
| `AudioResampler.FixedFrameAudioResampler.PacketsOfStream` | src/audio_resampler.rs:84-89 | The number of packets is floor(frames/F), packet i is slice i of the resampled stream, and the rest stays pending, however the input was cut |
| `AudioResampler.FixedFrameAudioResampler.GrowsUnlessFits` | src/audio_resampler.rs:171-172 | With the capacity of `new`, a call keeps the packet buffer's capacity iff it asks for no more frames than that holds |
| `AudioResampler.FixedFrameAudioResampler.PacketsNeverGrow` | src/audio_resampler.rs:53-75 | Under the exact condition the packet buffer does not grow on a regular chunk, from any reachable state |
| `AudioResampler.FixedFrameAudioResampler.InputNeverGrows` | src/audio_resampler.rs:133-143 | The input buffer does not grow on a regular chunk, at any rates and from any reachable state |
| `AudioResampler.ProcessPackets` | src/audio_resampler.rs:49-91 | The packets of any run on a new wrapper, then the pending samples, are the formula on all accepted input; the packet buffer ends with the capacity `RunCapacity`; only a call with n*out + in past 2^64-1 overflows |
| `AudioResampler.CutPackets` | src/audio_resampler.rs:86-88 | The `chunks_exact` loop yields equal packets that join to the samples it was given |
| `TransportRace.Race.TakePreferred` | src/client.rs:236-276 | A completion of the preferred attempt ends the race with the right answer at the right moment, or keeps the loop invariant; "WebRTC failed" on its own is unreachable |
| `TransportRace.Race.TakeOther` | src/client.rs:277-319 | The same for a completion of another attempt; the bare `return Err(e)` is unreachable |
| `TransportRace.Race.TakeWindow` | src/client.rs:320-325 | The window only fires with a relay held and returns it; the disarming line is unreachable |
| `TransportRace.RaceTransportsPreferWebrtc` | src/client.rs:220-328 | On every legal schedule the loop stops at the first event that settles the race, with the answer that event calls for, after at most one event per attempt |
| `TransportRace.EveryRunEnds` | src/client.rs:234-328 | Once every attempt has completed, some event has ended the race |
| `TransportRace.DirectWinsAtOnce` | src/client.rs:242-295 | A direct completion ends the run and is its result, even past a held relay, unless an earlier direct one or the window ended it |
| `TransportRace.RelayWaitsItsTurn` | src/client.rs:246-325 | A run that no direct completion ends goes on until nothing is in flight, or until `window_ms` after the relay held first, which then is the result |
| `TransportRace.WhoWins` | src/client.rs:242-319 | The winner is the connection that has just landed and ended the race, else the first one that did not; the result is an error iff there was none |
| `TransportRace.ErrorsInPlace` | src/client.rs:259-313 | The composed message has the error of the preferred attempt first and that of the last other one second |
| `TransportRace.LostIffAllFailed` | src/client.rs:259-319 | The race returns an error iff every attempt failed |
| `TransportRace.SettlesWithinWindow` | src/client.rs:231-258 | With a punctual timer the race settles no later than `window_ms` after the first relay it takes |
| `OffererOwnership.DropGuard` | src/client.rs:206-212 | Dropping an armed guard closes its peer connection once more, dropping a disarmed one does nothing |
| `OffererOwnership.Adopt` | src/client.rs:1290-1330 | Setup hands over an open peer connection or has closed it, also when cancelled |
| `OffererOwnership.StartRelayed` | src/client.rs:1064-1255 | On every way out of the relay branch the offer is closed exactly once, unless WebRTC is returned; a returned relay is not direct |
| `OffererOwnership.Connect` | src/client.rs:1387-1640 | The same for `connect` |
| `OffererOwnership.StartInner` | src/client.rs:785-1386 | The same for the whole of `_start_inner`, cancellation at any await included |
| `AudioBuffer.PcmRing.PushSliceOverwrite` | src/client.rs:2304-2310 | The ring keeps the last `capacity` samples of old contents followed by input |
| `AudioBuffer.ScanLevels` | src/client.rs:2253-2275 | One pass that rewrites the histogram while scanning it finds its empty prefix and first fullest bucket (0 if none) and leaves it all zero |
| `AudioBuffer.BucketExactly` | src/client.rs:2234-2238 | Bucket b holds the levels from b to b + 1 tenths of a second, the last one all above |
| `AudioBuffer.NoSkipWhenLow` | src/client.rs:2276-2278 | Nothing is skipped if some level between 100 and 600 ms was seen at least as often as each level above, or none from 100 ms on |
| `AudioBuffer.SkipExactly` | src/client.rs:2253-2287 | Otherwise the skip is exactly capacity*mark/120 rounded up to even, if positive and under a third of what is buffered; the mark is the level seen most, or four times two thirds of the lowest one seen if that is less |
| `AudioBuffer.SkipWithinLevels` | src/client.rs:2269-2286 | A skip is at most two thirds of any recorded level plus one sample, scaled by the rates after a resize |
| `AudioBuffer.SkipTaken` | src/client.rs:2282-2286 | A skip is even and under a third of what is buffered |
| `AudioBuffer.SkipsStayAlignedIff` | src/client.rs:2253-2287 | At this rate and channel count, all skips that histograms with the current level in them call for keep whole frames iff there are at most two channels, or rate / 40 is whole and rate * channels / 40 even |
| `AudioBuffer.AlignedAtEveryRateIff` | src/client.rs:2253-2287 | That holds at every rate iff it holds at 44.1 kHz iff there are at most two channels, and always at 48 kHz |
| `AudioBuffer.PlayFrames` | src/client.rs:2220-2328 | At such a rate and channel count every run that appends whole frames leaves whole frames |
| `AudioBuffer.SplitFrames` | src/client.rs:2220-2328 | At any other, a run of three appends of whole frames leaves a split frame |
| `AudioBuffer.DropsStayAligned` | src/client.rs:2304-2310 | Dropping to capacity keeps whole frames for any channel count, and so does an aligned skip |
| `AudioBuffer.AudioBuffer.constructor` | src/client.rs:2205-2216 | An empty ring for 48 kHz stereo and an empty histogram |
| `AudioBuffer.AudioBuffer.Resize` | src/client.rs:2220-2228 | Capacity is three seconds of audio; the ring is kept if that does not change, else empty |
| `AudioBuffer.AudioBuffer.AppendPcm2` | src/client.rs:2304-2320 | The newest samples stay and the generation advances exactly when samples are dropped |
| `AudioBuffer.AudioBuffer.RecordLevel` | src/client.rs:2234-2238 | Exactly the bucket of the level is counted, so the histogram keeps describing all levels since the last pass |
| `AudioBuffer.AudioBuffer.TryShrink` | src/client.rs:2230-2292 | Only every 12 seconds is the histogram evaluated and cleared, and the oldest samples are skipped as it calls for |
| `AudioBuffer.AudioBuffer.AppendPcm` | src/client.rs:2304-2328 | Appending and shrinking together drop only the oldest samples, count one level, skip every 12 seconds what the histogram calls for, advance the generation once per drop, stay within two thirds of every level recorded at this rate, and keep frames whole under that condition |
| `IceBridge.Bridge.DrainOne` | src/client.rs:692-715 | A drained candidate is sent once and remembered |
| `IceBridge.Bridge.ResendOne` | src/client.rs:730-731 | `swap_remove` takes exactly one entry, whose second copy is sent |
| `IceBridge.Bridge.ResendDue` | src/client.rs:725-745 | The loop terminates, visits each entry once, re-sends only due entries and keeps exactly the others |
| `IceBridge.Bridge.Visit` | src/client.rs:729-744 | One turn of the resend loop sends exactly a due entry and skips any other |
| `IceBridge.Bridge.Drain` | src/client.rs:690-723 | The gathered candidates are taken in order, up to the one whose send fails |
| `IceBridge.Bridge.Run` | src/client.rs:682-745 | In every run what was taken is the candidates of the rounds in order, sends = taken + (taken minus pending), so nothing is sent more than twice, and what is still pending was not due for its second copy when the last round began |
| `IceBridge.CandidatesOfSession` | src/client.rs:1257-1281 | A message adds its candidate iff neither that nor the key of this session is empty and it carries this key |
| `IceBridge.BufferCandidates` | src/client.rs:1257-1281 | The inbound buffer holds the newest 64 candidates of this session in order of arrival |
| `Sequences.LastNIsLast` | src/client.rs:2304-2310 | The newest n of a stream are its last n, in order |
| `Sequences.SwapRemoveCount` | src/client.rs:730 | `swap_remove` loses that element and nothing else, also in the part not looked at yet |
| `VideoDecodeFailures.ThresholdReachedIffFaulty` | src/client.rs:2727-2743 | The counter reaches 3 in a run iff its first frame failed or three in a row did |
| `VideoDecodeFailures.CounterStep` | src/client.rs:2727-2743 | The closed form (current failure streak, plus 2 if it began with the first frame) moves as the code moves its counter |
| `VideoDecodeFailures.VideoHandler.HandleFrame` | src/client.rs:2708-2758 | Every frame keeps the counter at its closed form over the results since the last reset, also across a change of format |
| `VideoDecodeFailures.VideoHandler.Reset` | src/client.rs:2761-2773 | A reset forgets all results and may change the format |
| `VideoDecodeFailures.Unsupported.CheckDecoder` | src/client.rs:4113-4127 | A format is marked iff it is bad and not marked yet, so the list never repeats one |
| `VideoDecodeFailures.ReachedIffFaulty` | src/client.rs:2727-2743 | Over a run of frames and resets in any formats, the threshold is reached in a format iff some stretch in it is faulty |
| `VideoDecodeFailures.ResetForgets` | src/client.rs:2761-2773 | After a reset only the format before it and the events since matter |
| `VideoDecodeFailures.FirstFailureIsFaulty` | src/client.rs:2727-2743 | A failed frame right after the start, a reset or a change of format is enough for its format |
| `VideoDecodeFailures.Unsupported.DecodeLoop` | src/client.rs:4019-4138 | After any such run a format is marked iff it was before, its decoder was invalid at some frame, or some stretch in it was faulty; in particular if the first frame of a stretch failed |
| `LoginPassword.SharedNeverSaved` | src/client.rs:3697-3716 | A password truthfully tagged as shared leaves the saved password as it was, or removed when not remembering |
| `LoginPassword.LoginConfigHandler.constructor` | src/client.rs:2976-2989 | A new session takes the password and the tag of its token with their history, or starts with neither |
| `LoginPassword.LoginConfigHandler.ApplyPassword` | src/client.rs:4680-4730 | A shared password, the last one, a preset, the saved, the personal and the builtin one are tried in this order, and each comes with its truthful tag |
| `LoginPassword.LoginConfigHandler.HandleHash` | src/client.rs:4632-4758 | With whatever salt the peer sends: a verified switch-back resets the tag, it and an incoming-only client leave the password alone; otherwise a shared password, the last one, a preset, the saved, the personal and the builtin one are tried in this order, each with its tag |
| `LoginPassword.LoginConfigHandler.HandleLoginFromUi` | src/client.rs:4826-4844 | A typed password replaces the last one and is tagged as neither; none typed means the last with its tag, or the saved one tagged as neither |
| `LoginPassword.LoginConfigHandler.HandleLoginError` | src/client.rs:4505-4512 | A password error clears the password and keeps every state consistent |
| `LoginPassword.LoginConfigHandler.HandlePeerInfo` | src/client.rs:3691-3747 | Remembering saves any password that is not shared; otherwise a personal one is saved and anything else cleared. The digest of a shared password, whether from this session or by a token, is saved iff it is remembered and its tag was reset or the salt gives another digest; otherwise it is neither saved nor synced |
| `LoginPassword.SwitchBackSavesShared` | src/client.rs:4644-4663 | A run from a token over a verified switch-back ends with the shared digest saved |
| `LoginPassword.LaterSessionSavesShared` | src/client.rs:2981-2989 | A run in which the session after a switch-back gets the password by a token, under the same salt, and saves the shared digest |
| `LoginPassword.ChangedSaltSavesShared` | src/client.rs:4680-4705 | A run over two hashes with different salts saves the shared digest iff the digests differ |
| `LoginPassword.LoginConfigHandler.GetConnToken` | src/client.rs:3961-3971 | A token exists iff a password does; it carries the password and its tag, and what the session knows of their history stays true of them |
| `BuildScanners.ValueOfDecimal` | build.py:686 | The value of a printed number is that number, also after leading zeros |
| `BuildScanners.MaxMinorIsDecimal` | build.py:685-686 | The maximum of a text is the largest number printed after a literal `GLIBC_2.` in it, 0 if there is none |
| `BuildScanners.WindowInFile` | build.py:675-687 | Tail plus chunk is a contiguous part of the file |
| `BuildScanners.StretchIsSeen` | build.py:802-814 | Every stretch of at most overlap+1 bytes lies inside one window |
| `BuildScanners.CarriesDrmtapMarker` | build.py:802-814 | The scan is true iff the marker occurs in the file, when every chunk but the last covers the overlap |
| `BuildScanners.FullReadsFindMarker` | build.py:806-814 | Blocks of a mebibyte meet that condition, for any marker up to that size |
| `BuildScanners.MarkerSeenExactly` | build.py:802-814 | Whatever the chunks, a window holds the marker iff some window shows a whole occurrence of it in the file |
| `BuildScanners.MaxInWindow` | build.py:685-686 | The `finditer` loop, which skips past each match, raises `best` to the largest number of all matches in the window |
| `BuildScanners.ShortMatchWhole` | build.py:679-687 | A match of at most nine digits is whole in some window |
| `BuildScanners.MaximumSeenExactly` | build.py:675-687 | Whatever the chunks, the windows' maximum is the file's iff there is nothing to report or a window shows a whole match that captures it |
| `BuildScanners.WindowsAndFile` | build.py:675-687 | The reported number is never above the file's maximum, and equals it iff that is zero or shown whole |
| `BuildScanners.ReportStands` | build.py:675-687 | Whatever is reported is at most a number that stands in the file |
| `BuildScanners.MaxGlibcMinor` | build.py:675-687 | The scan equals the file's maximum iff that is zero or shown whole, in particular when no number has more than nine digits |
| `BuildScanners.FullReadsFindMaxMinor` | build.py:681-687 | ... and blocks of a mebibyte suffice for that |
| `BuildScanners.AlwaysReportedIff` | build.py:675-687 | All chunkings that cover the overlap report the maximum iff there is nothing to report or a number of at most nine digits attains it |
| `BuildScanners.FullReadsCutNumber` | build.py:681-687 | In blocks of a mebibyte, after padding that holds no `G`, any positive number of ten or more digits whose last one falls into the second block is under-reported |
| `Strings.LowerForgetsCase` | src/custom_server.rs:45 | Texts have the same lower case iff they differ in the case of letters only |
| `Strings.JoinSplit` | src/custom_server.rs:63 | Splitting loses nothing: joining restores the string |
| `CustomServers.LastFieldIsLast` | src/custom_server.rs:68-84 | What follows the label in the last token that has it, nothing if none has |
| `CustomServers.ReadFields` | src/custom_server.rs:64-84 | The token loop computes that for all four labels |
| `CustomServers.StemOfExe` | src/custom_server.rs:45-51 | Text before no, one or two `.exe` endings in any case is left as it is iff two follow or it does not end in `.exe` itself |
| `CustomServers.SettingsComeBack` | src/custom_server.rs:44-91 | Settings with a host, written in any order and case after any prefix, with a trailing comma, a rename suffix and extensions, are what the whole call returns iff none contains a comma, the last one, without a comma after it, keeps its end, and every other one that is not empty has a field after the one with the first `host=` |
| `CustomServers.LiteralNameComesBack` | src/custom_server.rs:44-91 | From `HOST=h,Key=k,API=a,relay=r,.EXE` the whole call returns those four settings, if none contains a comma |
| `CustomServers.KeyBeforeHostIsLost` | src/custom_server.rs:61-85 | From `key=k,host=h` the key does not come back |
| `CustomServers.FirstDecoded` | src/custom_server.rs:98-110 | The first candidate that decodes, none iff none does |
| `CustomServers.GetCustomServerFromString` | src/custom_server.rs:44-113 | The labelled settings if there is a `host=`, else the first licence among the candidates of the name |
| `LicenceNames.NormalizedName` | src/custom_server.rs:93-96 | All four ways to set off a licence end up the same |
| `LicenceNames.LicenceComesBack` | src/custom_server.rs:44-110 | A licence code set off in any of the four ways is what the whole call returns, past blanks, a bracketed rename suffix and extensions, unless the name holds a `host=` |
| `LicenceNames.LiteralLicencesComeBack` | src/custom_server.rs:44-110 | From `rustdesk-licensed-CODE.exe`, `rustdesk-licensed--CODE (1).EXE`, `rustdesk-licensed---CODE<tab>(2)` and `rustdesk--CODE(1).exe.exe` the whole call returns what a code of letters and digits stands for |
| `LicenceNames.PartsOfName` | src/custom_server.rs:93-97 | Without a double dash in the name, three replacements and a split at `--` are one split at `-licensed-` |
| `LicenceNames.TriedIff` | src/custom_server.rs:92-110 | After `-licensed-`, what is left of a code is enough for it to be tried iff nothing is missing, it is trimmed, and it has no leading or double dash and no `-licensed-` |
| `LicenceNames.LicenceComesBackIff` | src/custom_server.rs:44-110 | The whole call brings back every licence a code can stand for iff the name has no `host=`, the code keeps its end, is trimmed, and has no leading or double dash and no `-licensed-` |
| `LicenceNames.LeadingDashIsLost` | src/custom_server.rs:93-96 | Of a code that starts with a dash the whole call reads the rest, unless the name holds a `host=` |
| `LicenceNames.DoubleDashIsNeverTried` | src/custom_server.rs:93-110 | No candidate of any name contains a double dash |

## Left out

- LicenceComesBack: is one way only, because whether a damaged code still decodes is up to the decoder; LicenceComesBackIff is both ways for every licence one code can stand for.
- RecordLevel: histogram counters and buffer lengths are unbounded; the `usize` limits of the resampler's capacities, of the failure counter and of the generation are modelled.
- Floating-point rounding, and the `sinc` backend built on libsamplerate.
- New: does not model the panic of `Vec::with_capacity` and `reserve` past `isize::MAX` bytes, which comes before the modelled limit of `usize::MAX` samples.
- ReserveInput: the same for the input buffer.
- ProcessInto: the same for the output of a call; and promises nothing about the samples of a call that overflows the position, where the code panics or wraps.
- The capacity of a vector is what was asked for; a real allocator may give more.
- Aliasing through `Arc` and `Mutex`: the ring and the shared login state are used by one caller at a time.
- `ringbuf` and tokio are not part of this model beyond the operations used; timers fire as punctually as `Punctual` says.
- The policy-relay branch of `_start_inner` and plain `select_ok` races: ownership covers them as arbitrary outcomes, their preference order is not modelled.
- Sockets, TLS, KCP, message encoding and what `request_relay`, `create_relay` and `secure_connection` do.
- Receiving in the ICE bridge after the resend loop, which does not touch the resend list.
- The terminal-administrator branch of `handle_hash` and login messages, which do not change the password.
- The decoder and recorder behind `VideoHandler`, and closing display threads.
- Names with letters outside ASCII, whose lower case may differ in length, and Unicode white space.
- Base64, JSON and signature checks of licence codes.
- Python's limit on the digits `int` converts.
- Clipboard, options, configuration files, API clients and packaging.
