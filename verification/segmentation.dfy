/**
 * The per-frame speech-segmentation state machine of `AudioRecorder.record`, as a
 * pure transition over a session value. Each tick carries the frame read from the
 * stream, the classifier's verdict on it, and what the outside world looks like
 * should this tick close a recording (its timestamp and filesystem outcomes).
 */
module Segmentation {
  import opened Wrappers
  import opened Config
  import opened Persistence

  /** The classifier's answer; a classifier that raises counts as non-speech. */
  datatype Verdict = Speech | NonSpeech | ClassifierFailed

  predicate IsSpeech(v: Verdict) { v == Speech }

  datatype Tick<F> = Tick(frame: F, verdict: Verdict, env: SaveEnv)

  /** The recorder fields the loop reads and writes. */
  datatype Session<F> = Session(
    recording: bool,
    buffer: seq<F>,
    silenceCounter: nat,
    speechFrameCounter: nat,
    preBuffer: seq<F>,
    speechDetected: bool)

  /** The state when the loop starts: nothing recorded, nothing counted. */
  function Initial<F>(): Session<F>
  {
    Session(false, [], 0, 0, [], false)
  }

  /** The arguments of one `save_recording` call: the buffer and silence counter it sees, and the world. */
  datatype SaveCall<F> = SaveCall(buffer: seq<F>, silenceCounter: nat, env: SaveEnv)

  /** What the call does. */
  function Outcome<F>(c: SaveCall<F>): SaveReport<F>
  {
    Save(c.buffer, c.silenceCounter, c.env)
  }

  datatype Stepped<F> = Stepped(next: Session<F>, saved: Option<SaveCall<F>>)

  /** One iteration of the `while True` loop; `saved` is the `save_recording` call it made, if any. */
  function Next<F>(s: Session<F>, t: Tick<F>): (r: Stepped<F>)
    // A speech frame clears the silence run, extends the speech run and raises the flag.
    ensures IsSpeech(t.verdict) ==>
      r.next.silenceCounter == 0 && r.next.speechFrameCounter == s.speechFrameCounter + 1 && r.next.speechDetected
    // Any other frame ends the speech run.
    ensures !IsSpeech(t.verdict) ==> r.next.speechFrameCounter == 0
    // Recording only ever starts on a speech frame.
    ensures !s.recording && r.next.recording ==> IsSpeech(t.verdict)
    // While a recording goes on, the frame is appended to it.
    ensures s.recording && r.next.recording ==> r.next.buffer == s.buffer + [t.frame]
    // A save is made only on a non-speech frame that ends a recording, of everything buffered with that frame.
    ensures r.saved.Some? ==>
      && s.recording && !IsSpeech(t.verdict) && !r.next.recording
      && r.saved.value.buffer == s.buffer + [t.frame] && r.saved.value.env == t.env
  {
    if IsSpeech(t.verdict) then
      var count := s.speechFrameCounter + 1;
      var pre := s.preBuffer + [t.frame];
      var confirm := !s.recording && count >= MINIMUM_CONSECUTIVE_SPEECH_FRAMES;
      var recording := s.recording || confirm;
      var buffer := if confirm then pre else s.buffer;
      Stepped(Session(recording,
                      if recording then buffer + [t.frame] else buffer,
                      0, count,
                      if confirm then [] else pre,
                      true),
              None)
    else if !s.recording then
      Stepped(s.(speechFrameCounter := 0, preBuffer := []), None)
    else
      var silence := s.silenceCounter + 1;
      var buffer := s.buffer + [t.frame];
      if silence >= SILENCE_THRESHOLD then
        Stepped(Session(false, [], 0, 0, s.preBuffer, false),
                if s.speechDetected then Some(SaveCall(buffer, silence, t.env)) else None)
      else
        Stepped(s.(buffer := buffer, silenceCounter := silence, speechFrameCounter := 0), None)
  }

  datatype Ran<F> = Ran(last: Session<F>, saves: seq<SaveCall<F>>)

  /** A loop body run over a finite stream, left to right: the state reached and the saves made, in order. */
  function Fold<F>(step: (Session<F>, Tick<F>) -> Stepped<F>, s: Session<F>, ticks: seq<Tick<F>>): (r: Ran<F>)
    ensures |r.saves| <= |ticks|
    decreases |ticks|
  {
    if ticks == [] then Ran(s, [])
    else
      var before := Fold(step, s, ticks[..|ticks| - 1]);
      var after := step(before.last, ticks[|ticks| - 1]);
      Ran(after.next, before.saves + OptionToSeq(after.saved))
  }

  /** The `record` loop run over a finite prefix of the stream. */
  function Run<F>(s: Session<F>, ticks: seq<Tick<F>>): (r: Ran<F>)
    ensures |r.saves| <= |ticks|
    ensures ticks == [] ==> r == Ran(s, [])
  {
    Fold((x, t) => Next(x, t), s, ticks)
  }

  /** The `KeyboardInterrupt` handler: save what is buffered, without waiting for the silence threshold. */
  function Finalize<F>(s: Session<F>, env: SaveEnv): (r: Option<SaveCall<F>>)
    ensures r.Some? <==> s.recording && s.buffer != [] && s.speechDetected
    ensures r.Some? ==> r.value == SaveCall(s.buffer, s.silenceCounter, env)
  {
    if s.recording && |s.buffer| > 0 && s.speechDetected then Some(SaveCall(s.buffer, s.silenceCounter, env))
    else None
  }

  /**
   * The saves of one `record` call: the loop over the stream from the state it
   * resets, then the interrupt that ends the stream.
   */
  function RecordSession<F>(s: Session<F>, ticks: seq<Tick<F>>, interrupt: SaveEnv): (rs: seq<SaveReport<F>>)
    ensures |rs| <= |ticks| + 1
  {
    var r := Run(s.(speechFrameCounter := 0, preBuffer := []), ticks);
    Outcomes(r.saves + OptionToSeq(Finalize(r.last, interrupt)))
  }

  /** What a sequence of save calls does, call by call. */
  function Outcomes<F>(calls: seq<SaveCall<F>>): (rs: seq<SaveReport<F>>)
    ensures |rs| == |calls|
  {
    if calls == [] then [] else Outcomes(calls[..|calls| - 1]) + [Outcome(calls[|calls| - 1])]
  }

  // ----- Stream vocabulary -----

  /** The frames of a stream, in order. */
  function Frames<F>(ticks: seq<Tick<F>>): (fs: seq<F>)
    ensures |fs| == |ticks|
  {
    if ticks == [] then [] else Frames(ticks[..|ticks| - 1]) + [ticks[|ticks| - 1].frame]
  }

  /** The classifier verdicts as booleans, true meaning speech. */
  function Labels<F>(ticks: seq<Tick<F>>): (ls: seq<bool>)
    ensures |ls| == |ticks|
  {
    if ticks == [] then [] else Labels(ticks[..|ticks| - 1]) + [IsSpeech(ticks[|ticks| - 1].verdict)]
  }

  /** The speech frames of a stream, in order. */
  function SpeechFrames<F>(ticks: seq<Tick<F>>): seq<F>
  {
    if ticks == [] then []
    else SpeechFrames(ticks[..|ticks| - 1])
         + (if IsSpeech(ticks[|ticks| - 1].verdict) then [ticks[|ticks| - 1].frame] else [])
  }

  predicate AllSpeech<F>(ticks: seq<Tick<F>>)
  {
    forall i :: 0 <= i < |ticks| ==> IsSpeech(ticks[i].verdict)
  }

  predicate NoSpeech<F>(ticks: seq<Tick<F>>)
  {
    forall i :: 0 <= i < |ticks| ==> !IsSpeech(ticks[i].verdict)
  }

  /** Length of the speech run at the end of the stream, continuing a run of `carried` frames before it. */
  function SpeechRunAtEnd<F>(carried: nat, ticks: seq<Tick<F>>): nat
  {
    if ticks == [] then carried
    else if IsSpeech(ticks[|ticks| - 1].verdict) then SpeechRunAtEnd(carried, ticks[..|ticks| - 1]) + 1
    else 0
  }

  /** No point of the stream ends a speech run as long as the onset minimum. */
  predicate ShortRuns<F>(carried: nat, ticks: seq<Tick<F>>)
  {
    forall k :: 0 <= k <= |ticks| ==> SpeechRunAtEnd(carried, ticks[..k]) < MINIMUM_CONSECUTIVE_SPEECH_FRAMES
  }

  /**
   * The states the loop can be in between frames. Not recording: nothing is
   * buffered, and the consecutive-speech count is below the onset minimum and
   * backed by as many pre-buffered frames. Recording: speech was seen, the
   * silence run is below the closing threshold, and the buffer holds at least the
   * confirming run, the duplicated confirming frame and the silence run.
   */
  predicate Inv<F>(s: Session<F>)
  {
    if s.recording then
      && s.speechDetected
      && s.silenceCounter < SILENCE_THRESHOLD
      && s.silenceCounter + MINIMUM_CONSECUTIVE_SPEECH_FRAMES + 1 <= |s.buffer|
    else
      && s.buffer == []
      && s.silenceCounter == 0
      && s.speechFrameCounter < MINIMUM_CONSECUTIVE_SPEECH_FRAMES
      && s.speechFrameCounter <= |s.preBuffer|
  }
}
