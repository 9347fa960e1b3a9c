/**
 * `AudioRecorder` as an object whose fields the loop updates in place, one frame
 * at a time. Each method is proved to do what the pure model in `Segmentation`
 * and `Persistence` says, so the facts proved there hold of the object.
 */
module Recorder {
  import opened Wrappers
  import opened Config
  import opened Persistence
  import opened Segmentation
  import opened SegmentationFacts

  class AudioRecorder<F> {
    var recording: bool
    var buffer: seq<F>
    var silenceCounter: nat
    var speechFrameCounter: nat
    var speechPreBuffer: seq<F>
    var speechDetectedInRecording: bool

    /** The fields as a session value. */
    function State(): Session<F>
      reads this
    {
      Session(recording, buffer, silenceCounter, speechFrameCounter, speechPreBuffer,
              speechDetectedInRecording)
    }

    ghost predicate Valid()
      reads this
    {
      Inv(State())
    }

    constructor ()
      ensures Valid() && State() == Initial()
    {
      recording := false;
      buffer := [];
      silenceCounter := 0;
      speechFrameCounter := 0;
      speechPreBuffer := [];
      speechDetectedInRecording := false;
    }

    /**
     * `save_recording`: returns early on a buffer of at most one frame; otherwise
     * trims the buffer in place and delivers it under one file name.
     */
    method SaveRecording(env: SaveEnv) returns (report: SaveReport<F>)
      modifies this`buffer
      ensures report == Save(old(buffer), silenceCounter, env)
      ensures buffer == if report.Written? then report.frames else old(buffer)
    {
      if |buffer| <= 1 {
        return Dropped;
      }
      if silenceCounter > TRAILING_SILENCE_FRAMES {
        var trimFrames := silenceCounter - TRAILING_SILENCE_FRAMES;
        buffer := SliceToNegative(buffer, trimFrames);
      }
      var filename := FileName(env.timestamp, OUTPUT_FORMAT);
      report := Written(buffer, filename, ContainerFor(OUTPUT_FORMAT), Deliver(filename, env.fs));
    }

    /** One iteration of the `record` loop on a frame and the classifier's verdict on it. */
    method Step(frame: F, verdict: Verdict, env: SaveEnv) returns (saved: Option<SaveReport<F>>)
      requires Valid()
      modifies this
      ensures Valid()
      ensures var n := Next(old(State()), Tick(frame, verdict, env));
        State() == n.next && saved == (if n.saved.Some? then Some(Outcome(n.saved.value)) else None)
    {
      StepKeepsInv(State(), Tick(frame, verdict, env));
      saved := None;
      if IsSpeech(verdict) {
        speechDetectedInRecording := true;
        silenceCounter := 0;
        speechFrameCounter := speechFrameCounter + 1;
        speechPreBuffer := speechPreBuffer + [frame];
        if !recording && speechFrameCounter >= MINIMUM_CONSECUTIVE_SPEECH_FRAMES {
          recording := true;
          buffer := speechPreBuffer;
          speechPreBuffer := [];
        }
        if recording {
          buffer := buffer + [frame];
        }
      } else {
        speechFrameCounter := 0;
        if !recording {
          speechPreBuffer := [];
        }
        if recording {
          silenceCounter := silenceCounter + 1;
          buffer := buffer + [frame];
          if silenceCounter >= SILENCE_THRESHOLD {
            if speechDetectedInRecording {
              var report := SaveRecording(env);
              saved := Some(report);
            }
            recording := false;
            buffer := [];
            silenceCounter := 0;
            speechDetectedInRecording := false;
          }
        }
      }
    }

    /** The `KeyboardInterrupt` handler. */
    method Interrupt(env: SaveEnv) returns (saved: Option<SaveReport<F>>)
      modifies this`buffer
      ensures var call := Finalize(old(State()), env);
        saved == if call.Some? then Some(Outcome(call.value)) else None
      ensures buffer == if saved.Some? && saved.value.Written? then saved.value.frames else old(buffer)
    {
      saved := None;
      if recording && |buffer| > 0 && speechDetectedInRecording {
        var report := SaveRecording(env);
        saved := Some(report);
      }
    }

    /**
     * The `while True` loop of `record` over the frames read before the interrupt:
     * the object ends in the state the pure loop reaches, and every save it makes
     * writes a file.
     */
    method Listen(ticks: seq<Tick<F>>) returns (saves: seq<SaveReport<F>>)
      requires Valid()
      modifies this
      ensures Valid()
      ensures var r := Run(old(State()), ticks);
        State() == r.last && saves == Outcomes(r.saves)
      ensures forall r :: r in saves ==> r.Written?
    {
      ghost var start := State();
      saves := [];
      for i := 0 to |ticks|
        invariant Valid()
        invariant Run(start, ticks[..i]).last == State()
        invariant Outcomes(Run(start, ticks[..i]).saves) == saves
        invariant forall r :: r in saves ==> r.Written?
      {
        var t := ticks[i];
        ghost var calls := Run(start, ticks[..i]).saves;
        ghost var n := Next(State(), t);
        var saved := Step(t.frame, t.verdict, t.env);
        assert ticks[..i + 1] == ticks[..i] + [t];
        RunSnoc(start, ticks[..i], t);
        OutcomesSnoc(calls, n.saved);
        LoopSaveCalls(start, ticks[..i + 1]);
        if n.saved.Some? {
          ClosingSaveIsWritten(n.saved.value);
        }
        saves := saves + OptionToSeq(saved);
      }
      assert ticks[..|ticks|] == ticks;
    }

    /**
     * `record`: reset the speech counter and pre-buffer, run the loop over the
     * frames read before the interrupt, then handle the interrupt. Every save
     * it makes writes a file.
     */
    method Record(ticks: seq<Tick<F>>, interrupt: SaveEnv) returns (saves: seq<SaveReport<F>>)
      requires Valid()
      modifies this
      ensures saves == RecordSession(old(State()), ticks, interrupt)
      ensures var last := Run(old(State()).(speechFrameCounter := 0, preBuffer := []), ticks).last;
        var call := Finalize(last, interrupt);
        State() == if call.Some? && Outcome(call.value).Written? then last.(buffer := Outcome(call.value).frames) else last
      ensures forall r :: r in saves ==> r.Written?
    {
      speechFrameCounter := 0;
      speechPreBuffer := [];
      ghost var start := State();
      assert start == old(State()).(speechFrameCounter := 0, preBuffer := []);
      saves := Listen(ticks);
      ghost var last := State();
      assert last == Run(start, ticks).last;
      ghost var call := Finalize(last, interrupt);
      InterruptSave(last, interrupt);
      var final := Interrupt(interrupt);
      OutcomesSnoc(Run(start, ticks).saves, call);
      saves := saves + OptionToSeq(final);
    }
  }
}
