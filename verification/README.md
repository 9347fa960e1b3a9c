# Speech-segmenting audio recorder, modelled in Dafny

This project models the core of `AudioRecorder` (`main.py`): the per-frame state
machine that turns a stream of audio frames and speech/non-speech verdicts into
recordings, and the save policy that runs when a recording closes. The policy drops
one-frame buffers, trims surplus trailing silence, names the file once, and writes to
the network directory or falls back to the local backup directory.

Layout, one module per file:

- `config.dfy` (`Config`): the configuration constants of `config.py`, and the frame
  counts derived from them in whole milliseconds with floor division: a silence
  threshold of 100 frames, 3 kept trailing frames, 480 samples per frame.
- `text.dfy` (`Text`), `wrappers.dfy` (`Wrappers`): lower-casing, substring test,
  `Option`/`Result`.
- `device.dfy` (`Device`): the search for the first device whose lower-cased name
  contains `snowball`.
- `persistence.dfy` (`Persistence`): `save_recording` as a pure function. It covers
  the file name, the WAV/FLAC dispatch, the trim and the network/backup decision. The
  filesystem is an oracle of three booleans: the network directory exists, the network
  write succeeds, the backup write succeeds.
- `segmentation.dfy` (`Segmentation`): one loop iteration as a pure transition
  `Next`; `Run` over a finite stream; `Finalize` for the interrupt handler; and the
  invariant `Inv` of the states between frames. Each tick carries the frame, the
  classifier's verdict (a classifier error counts as non-speech) and the timestamp
  and filesystem outcomes a save on that tick would see.
- `segmentation_facts.dfy` (`SegmentationFacts`): the onset gate, the recording
  invariant, the closing save, and the interrupt.
- `scenarios.dfy` (`Scenarios`): concrete streams with the configured values.
- `recorder.dfy` (`Recorder`): the class `AudioRecorder`, whose fields the methods
  update in place. Each method is proved equal to the pure model, so every fact above
  holds of the object.

Quirks of the code that the model keeps:

- The confirming frame is in the pre-buffer when that is copied into the buffer, and
  it is then appended again. Seven speech frames and a hundred non-speech frames
  therefore give a 108-frame buffer (`Scenarios.SevenThenSilence`).
- The check that drops buffers of at most one frame runs before trimming.
  In reachable states it never fires (`SegmentationFacts.LoopSaveCalls`,
  `SegmentationFacts.ClosingSaveIsWritten`, `SegmentationFacts.InterruptSave`).
- The speech pre-buffer keeps collecting speech frames while recording and is not
  cleared when a recording closes. A speech frame from the end of one recording can
  therefore open the next one (`Scenarios.StalePreBufferCarriesOver`).
- The "speech detected" flag is set by every speech frame, recording or not. So the
  guards at `main.py:137` and `main.py:146` hold whenever a recording is in progress
  (`Inv`).
- The onset minimum is `MINIMUM_CONSECUTIVE_SPEECH_FRAMES` = 7. The docstring of
  `record` says 5.
- Trimming uses the silence counter, not a recount of the buffer. Re-trimming a
  trimmed buffer with its new trailing run changes nothing (`Persistence.TrimKeepsSilence`).

## Model

| member | source | states |
|---|---|---|
| `Config.FramesInIsFloor` | main.py:40-48 | a derived frame count is the largest whole number of frames whose total duration fits in the configured duration |
| `Config.SamplesPerFrameIsFloor` | main.py:34 | the frame size is the largest sample count whose duration at the sample rate fits in one frame |
| `Config.DerivedCounts` | main.py:32-48 | with the configured values: silence threshold 100 frames, 3 kept trailing frames, 480 samples per frame |
| `Device.FindDeviceIndex` | main.py:60-69 | returns an index iff some lower-cased name contains "snowball"; that index is in range and matches and no smaller one does; otherwise DeviceNotFound |
| `Text.Lower` | main.py:67 | lower-casing keeps the length and maps each character on its own (ASCII letters only) |
| `Text.LowerSlice` | main.py:67 | lower-casing commutes with taking a slice |
| `Text.LowerAppend` | main.py:67 | lower-casing commutes with concatenation |
| `Text.LowerIdempotent` | main.py:67 | lower-casing twice is lower-casing once |
| `Text.ContainsIff` | main.py:67 | `needle in s` holds iff some window of s as long as the needle equals it |
| `Device.SnowballIff` | main.py:67 | a device name matches iff some eight consecutive characters of it spell "snowball" in any mix of letter case |
| `Device.SnowballAnywhere` | main.py:67 | any name containing "snowball" in any letter case, with any text before and after, matches |
| `Device.SnowballIgnoresCase` | main.py:67 | a name matches iff its lower-cased form does |
| `Device.SnowballNames` | main.py:67 | examples: "Blue Snowball: USB Audio (hw:1,0)" and "SNOWBALL" match; "Snow Ball" does not |
| `Persistence.FileName` | main.py:167 | the name is "recording_", the timestamp, a dot and the configured format, in that order |
| `Persistence.ContainerFor` | main.py:193-196 | WAV is chosen iff the format is three characters that lower-case to "wav"; every other format, "wave" and the empty string included, gives FLAC |
| `Persistence.ContainerDispatch` | main.py:189-196 | examples: "wav", "WAV" and "Wav" give WAV; "flac", "" and "wave" give FLAC; the configured format gives FLAC |
| `Persistence.Deliver` | main.py:170-187 | both attempts use the same file name; network is tried iff its directory exists; backup is tried iff the directory is missing or the network write fails; each location is tried at most once, network before backup; the file is reported saved on the network exactly when that write succeeded, in the backup exactly when the fallback was taken and succeeded, and nowhere otherwise |
| `Persistence.SliceToNegative` | main.py:164 | Python's `xs[:-k]`: a prefix of xs, k elements shorter when 0 < k < len(xs), and empty when k is 0 or at least the length |
| `Persistence.Trimmed` | main.py:161-164 | the result is a prefix of the buffer; when the counter exceeds the kept amount exactly counter minus kept frames are cut from the end (everything if fewer remain); otherwise nothing changes |
| `Persistence.TrailingNonSpeechPrefix` | main.py:161-164 | cutting frames from the end of a buffer that ends in a silence run, but no speech, shortens that run by exactly the frames cut |
| `Persistence.TrimKeepsSilence` | main.py:161-164 | when the counter is the true closing silence run and speech precedes it, trimming leaves exactly min(counter, kept) trailing non-speech frames and removes nothing else; trimming again with the new run is a no-op |
| `Persistence.Save` | main.py:153-187 | a buffer of at most one frame is dropped, before any trimming; otherwise the trimmed buffer (a prefix of it, per `Trimmed`) is written in the container `ContainerFor` picks, under the one name derived from the timestamp, which every attempt uses, with the network/backup decision of `Deliver` |
| `Segmentation.Next` | main.py:108-142 | a speech frame zeroes the silence run, extends the speech run and raises the flag; any other frame zeroes the speech run; recording starts only on a speech frame; while recording continues the frame is appended; a save is made only on a non-speech frame that ends a recording, of the buffer with that frame, with that frame's timestamp and filesystem |
| `Segmentation.Run` | main.py:98-142 | the loop over a finite stream makes at most one save per frame, and over no frames changes nothing |
| `Segmentation.Finalize` | main.py:146-147 | the interrupt saves iff recording with a non-empty buffer and the flag set, and then saves the current buffer with the current counter |
| `Segmentation.RecordSession` | main.py:95-147 | one `record` call makes at most one save per frame plus one for the interrupt |
| `SegmentationFacts.StepKeepsInv` | main.py:108-142 | every frame keeps the between-frames invariant; a save happens exactly on the non-speech frame that brings the silence run to the threshold while recording |
| `SegmentationFacts.IdleNonSpeechResets` | main.py:126-129 | while not recording, a non-speech frame sets the speech count to 0, empties the pre-buffer and saves nothing |
| `SegmentationFacts.OnsetStep` | main.py:108-124 | recording starts only on a speech frame that brings the speech count to the minimum; the buffer is the pre-buffer ending with that frame, then that frame again; pre-buffer and silence counter are cleared |
| `SegmentationFacts.ArmStep` | main.py:108-121 | below the minimum, a speech frame raises the count, joins the pre-buffer and sets the flag, and nothing is recorded or saved |
| `SegmentationFacts.ConfirmStep` | main.py:113-124 | the speech frame that reaches the minimum starts a recording of the pre-buffer, that frame and that frame again, and empties the pre-buffer |
| `SegmentationFacts.SilenceStep` | main.py:126-136 | a non-speech frame below the threshold is appended and counted, the speech count drops to 0, and nothing is saved |
| `SegmentationFacts.CloseStep` | main.py:131-142 | the closing frame makes one save of the buffer plus that frame with the counter at the threshold; afterwards not recording, buffer empty, counters 0, flag down, pre-buffer unchanged |
| `SegmentationFacts.FoldAppend` | main.py:99-142 | iterating any per-frame step over two stretches of stream is iterating it over the first and then the second, with the saves concatenated in order |
| `SegmentationFacts.RunAppend` | main.py:99-142 | the same for the recorder's loop body |
| `SegmentationFacts.RunSnoc` | main.py:99-142 | one more frame is one more loop iteration, whose save, if any, comes after all earlier ones |
| `SegmentationFacts.RunKeepsInv` | main.py:99-142 | the invariant holds after any finite stream |
| `SegmentationFacts.ArmingRun` | main.py:108-121 | below the minimum, speech frames only raise the count and are pre-buffered in order; nothing is recorded or saved |
| `SegmentationFacts.ConfirmRun` | main.py:113-124 | the speech run that reaches the minimum starts a recording whose buffer is the pre-buffer, the run, and its last frame again, with the pre-buffer emptied |
| `SegmentationFacts.SilentRun` | main.py:131-136 | non-speech frames below the threshold are each appended and counted, and nothing is saved |
| `SegmentationFacts.ClosingRun` | main.py:131-142 | a silence run that reaches the threshold makes exactly one save, of all buffered frames with the whole run, with the counter at the threshold, then resets everything but the pre-buffer |
| `SegmentationFacts.RecordingStep` | main.py:108-136 | one frame of a recording that does not close it is appended once; the counter becomes the trailing silence run of the extended buffer; a speech frame also joins the pre-buffer |
| `SegmentationFacts.RecordedSinceStep` | main.py:108-136 | the recording facts below, extended by one frame |
| `SegmentationFacts.RecordingRunSince` | main.py:108-136 | the recording facts below, stated with the invariant, by induction over the stream |
| `SegmentationFacts.RecordingRun` | main.py:108-136 | while a recording lasts, every frame is appended exactly once and nothing is removed; the silence counter equals the trailing non-speech run of the buffer and stays below the threshold; speech frames keep joining the pre-buffer |
| `SegmentationFacts.NoOnsetWithoutLongRun` | main.py:108-129 | a stream with no speech run as long as the minimum never starts a recording and never saves; the count is the length of the final speech run |
| `SegmentationFacts.OnsetIffLongRun` | main.py:111-121 | after such a stream, the next frame starts a recording iff it completes a speech run of the minimum length |
| `SegmentationFacts.LoopSaveCalls` | main.py:131-138 | every save the loop makes sees the counter at the threshold and a buffer of at least the threshold, the minimum run and its duplicate |
| `SegmentationFacts.ClosingSaveIsWritten` | main.py:158-164 | such a save is never dropped by the one-frame guard; it writes the buffer less threshold minus 3 frames, at least the confirming run, its duplicate and 3 kept frames |
| `SegmentationFacts.InterruptSave` | main.py:144-147 | on interrupt a save happens iff a recording is in progress; it is of the current buffer and counter, the counter is below the threshold, and it always writes at least 8 frames |
| `Scenarios.ShortRunsNeverStart` | main.py:108-129 | 6 speech, 1 non-speech, 6 speech frames: no recording and no save, speech count 6 |
| `Scenarios.SevenThenSilence` | main.py:108-167 | 7 speech then 100 non-speech frames: one save of a 108-frame buffer, written as its first 11 frames under the name stamped at the closing frame; the loop returns to its initial state |
| `Scenarios.EightSpeechFrames` | main.py:108-124 | 8 speech frames: not recording after six, recording after seven; the buffer is the seven frames, the seventh again and the eighth; the eighth is also left in the pre-buffer |
| `Scenarios.StalePreBufferCarriesOver` | main.py:113-129 | 8 speech, 100 non-speech, 7 speech frames: the second recording begins with the eighth frame of the first |
| `Recorder.AudioRecorder.constructor` | main.py:30-58 | a new recorder is not recording, with empty buffers, zero counters and the flag down |
| `Recorder.AudioRecorder.SaveRecording` | main.py:153-187 | the report is the pure save of the buffer and counter; the buffer is trimmed in place exactly when a file is written |
| `Recorder.AudioRecorder.Step` | main.py:108-142 | the fields after one frame and the save made are those of the pure transition; the invariant is kept |
| `Recorder.AudioRecorder.Interrupt` | main.py:144-147 | the save made is the pure interrupt finalisation of the state before it; the buffer is trimmed in place exactly when a file is written, and no other field changes |
| `Recorder.AudioRecorder.Listen` | main.py:98-142 | the loop over the frames keeps the invariant, leaves the fields as the pure loop does, makes the saves the pure loop makes, and every one writes a file |
| `Recorder.AudioRecorder.Record` | main.py:95-147 | after resetting the count and pre-buffer, the saves are those of the pure loop over the stream followed by the interrupt, and every one writes a file; the fields end as the pure loop leaves them, with the buffer trimmed when the interrupt wrote it |

## Left out

- Audio device enumeration, stream opening, reading and closing (`main.py:77-91`,
  `main.py:100`, `main.py:148-151`) are not modelled. The frames read become the
  ticks of a finite stream. Stream release in `finally` is not modelled.
- The webrtcvad classifier is an input: each tick carries its verdict, and a raised
  error is the verdict `ClassifierFailed`, which counts as non-speech.
- The WAV and FLAC encoders, numpy byte joining, and the `wave`/`soundfile` calls
  are not modelled. Only the dispatch rule is (`ContainerFor`). An encoder refusing
  to overwrite an existing file is just a failed write in the oracle.
- `datetime.now()` is an input: each tick carries the formatted timestamp a save
  on it would use.
- `os.path.exists` on the network directory and the outcome of each write are
  oracle booleans. Creating the backup directory at construction (`main.py:54-55`)
  is not modelled.
- Printing and logging configuration are left out, and every `print` is assumed not to
  raise. A raising `print` would change behaviour: at `main.py:178` it sits inside the
  `try` of the network write, so a failure there after a successful network write would
  also write the recording to the backup directory; at `main.py:118` it would end the
  loop.
- The unending `while True` loop is a finite stream followed by the interrupt. A
  `KeyboardInterrupt` that lands in the middle of an iteration (for example during a
  save) is not modelled.
- `record` failing with DeviceNotFound before the loop is modelled by
  `FindDeviceIndex` alone. `Record` starts from an already-open stream.
- `Text.Lower` lower-cases ASCII letters only. Python's `str.lower()` also maps
  other Unicode letters; none of those lower-cases to a letter of "snowball".
- The floating-point seconds are replaced by whole milliseconds (3000 ms, 100 ms).
  With the configured values the truncated float quotients are the same numbers.
- `speech_frame_counter` and `speech_pre_buffer` are first created in `record`, not
  in `__init__`. The constructor gives them their initial values, and `Record`
  resets them as `record` does.
