/** What the segmentation loop guarantees, proved about the transition `Segmentation.Next`. */
module SegmentationFacts {
  import opened Wrappers
  import opened Config
  import opened Persistence
  import opened Segmentation

  /** Regrouping a concatenation, stated once so that callers need not search for it. */
  lemma AppendAssoc<T>(a: seq<T>, b: seq<T>, c: seq<T>)
    ensures (a + b) + c == a + (b + c)
  {
  }

  /** A non-empty sequence is its front followed by its last element. */
  lemma SplitLast<T>(xs: seq<T>)
    requires |xs| > 0
    ensures xs[..|xs| - 1] + [xs[|xs| - 1]] == xs
  {
  }

  // ----- One frame -----

  /**
   * Every frame keeps the loop's invariant, and `save_recording` is called on
   * exactly the non-speech frame that brings the silence run to the threshold.
   */
  lemma StepKeepsInv<F>(s: Session<F>, t: Tick<F>)
    requires Inv(s)
    ensures Inv(Next(s, t).next)
    ensures Next(s, t).saved.Some? <==>
      s.recording && !IsSpeech(t.verdict) && s.silenceCounter + 1 == SILENCE_THRESHOLD
  {
  }

  /** While not recording, a non-speech frame forgets the speech run and the pre-buffer. */
  lemma IdleNonSpeechResets<F>(s: Session<F>, t: Tick<F>)
    requires !s.recording && !IsSpeech(t.verdict)
    ensures var n := Next(s, t);
      !n.next.recording && n.next.speechFrameCounter == 0 && n.next.preBuffer == [] && n.saved == None
  {
  }

  /**
   * Recording starts only on a speech frame that brings the speech run to the
   * minimum, and its buffer is the pre-buffer (ending with that frame) followed by
   * the same frame a second time.
   */
  lemma OnsetStep<F>(s: Session<F>, t: Tick<F>)
    requires Inv(s) && !s.recording && Next(s, t).next.recording
    ensures IsSpeech(t.verdict)
    ensures s.speechFrameCounter + 1 == MINIMUM_CONSECUTIVE_SPEECH_FRAMES
    ensures Next(s, t).next.buffer == s.preBuffer + [t.frame] + [t.frame]
    ensures Next(s, t).next.preBuffer == [] && Next(s, t).next.silenceCounter == 0
  {
  }

  /**
   * The closing frame: one save, of the buffer with that frame appended, seeing the
   * counter at the threshold; afterwards nothing is recorded or counted, the flag is
   * down, and the pre-buffer is left as it was.
   */
  lemma CloseStep<F>(s: Session<F>, t: Tick<F>)
    requires Inv(s) && s.recording && !IsSpeech(t.verdict)
    requires s.silenceCounter + 1 == SILENCE_THRESHOLD
    ensures Next(s, t) == Stepped(Session(false, [], 0, 0, s.preBuffer, false),
                                  Some(SaveCall(s.buffer + [t.frame], SILENCE_THRESHOLD, t.env)))
  {
  }

  /** A speech frame below the onset minimum is counted and pre-buffered. */
  lemma ArmStep<F>(s: Session<F>, t: Tick<F>)
    requires Inv(s) && !s.recording && IsSpeech(t.verdict)
    requires s.speechFrameCounter + 1 < MINIMUM_CONSECUTIVE_SPEECH_FRAMES
    ensures Next(s, t) == Stepped(Session(false, [], 0, s.speechFrameCounter + 1, s.preBuffer + [t.frame], true), None)
  {
  }

  /** The speech frame that reaches the onset minimum starts the recording. */
  lemma ConfirmStep<F>(s: Session<F>, t: Tick<F>)
    requires Inv(s) && !s.recording && IsSpeech(t.verdict)
    requires s.speechFrameCounter + 1 == MINIMUM_CONSECUTIVE_SPEECH_FRAMES
    ensures Next(s, t) == Stepped(Session(true, s.preBuffer + [t.frame] + [t.frame], 0,
                                          MINIMUM_CONSECUTIVE_SPEECH_FRAMES, [], true), None)
  {
  }

  /** A non-speech frame below the threshold is appended and counted. */
  lemma SilenceStep<F>(s: Session<F>, t: Tick<F>)
    requires Inv(s) && s.recording && !IsSpeech(t.verdict)
    requires s.silenceCounter + 1 < SILENCE_THRESHOLD
    ensures Next(s, t) == Stepped(s.(buffer := s.buffer + [t.frame], silenceCounter := s.silenceCounter + 1,
                                     speechFrameCounter := 0), None)
  {
  }

  // ----- Runs of frames -----

  /** Running a loop body over a concatenation is running it over the first part and then the second. */
  lemma {:induction false} FoldAppend<F>(step: (Session<F>, Tick<F>) -> Stepped<F>, s: Session<F>,
                                         a: seq<Tick<F>>, b: seq<Tick<F>>)
    ensures var ra := Fold(step, s, a);
      var rb := Fold(step, ra.last, b);
      Fold(step, s, a + b) == Ran(rb.last, ra.saves + rb.saves)
    decreases |b|
  {
    if b == [] {
      assert a + b == a;
    } else {
      var b', t := b[..|b| - 1], b[|b| - 1];
      FoldAppend(step, s, a, b');
      assert (a + b)[..|a + b| - 1] == a + b' && (a + b)[|a + b| - 1] == t;
      var ra := Fold(step, s, a);
      var rb' := Fold(step, ra.last, b');
      var after := step(rb'.last, t);
      AppendAssoc(ra.saves, rb'.saves, OptionToSeq(after.saved));
    }
  }

  /** Running over a concatenation is running over the first part and then over the second. */
  lemma RunAppend<F>(s: Session<F>, a: seq<Tick<F>>, b: seq<Tick<F>>)
    ensures var ra := Run(s, a);
      var rb := Run(ra.last, b);
      Run(s, a + b) == Ran(rb.last, ra.saves + rb.saves)
  {
    FoldAppend((x, t) => Next(x, t), s, a, b);
  }

  /** Running over one more frame is one more loop iteration. */
  lemma RunSnoc<F>(s: Session<F>, ticks: seq<Tick<F>>, t: Tick<F>)
    ensures var r := Run(s, ticks);
      var step := Next(r.last, t);
      Run(s, ticks + [t]) == Ran(step.next, r.saves + OptionToSeq(step.saved))
  {
    assert (ticks + [t])[..|ticks|] == ticks;
  }

  lemma {:induction false} RunKeepsInv<F>(s: Session<F>, ticks: seq<Tick<F>>)
    requires Inv(s)
    ensures Inv(Run(s, ticks).last)
    decreases |ticks|
  {
    if ticks != [] {
      RunKeepsInv(s, ticks[..|ticks| - 1]);
      StepKeepsInv(Run(s, ticks[..|ticks| - 1]).last, ticks[|ticks| - 1]);
    }
  }

  /**
   * While the speech run stays below the minimum, speech frames are only counted
   * and pre-buffered, in order.
   */
  lemma {:induction false} ArmingRun<F>(s: Session<F>, ticks: seq<Tick<F>>)
    requires Inv(s) && !s.recording && AllSpeech(ticks)
    requires s.speechFrameCounter + |ticks| < MINIMUM_CONSECUTIVE_SPEECH_FRAMES
    ensures Run(s, ticks) == Ran(
      Session(false, [], 0, s.speechFrameCounter + |ticks|, s.preBuffer + Frames(ticks),
              s.speechDetected || ticks != []),
      [])
    decreases |ticks|
  {
    if ticks == [] {
      assert s.preBuffer + Frames(ticks) == s.preBuffer;
    } else {
      var init, t := ticks[..|ticks| - 1], ticks[|ticks| - 1];
      SplitLast(ticks);
      ArmingRun(s, init);
      RunSnoc(s, init, t);
      ArmStep(Run(s, init).last, t);
      StreamSnoc(init, t);
      AppendAssoc(s.preBuffer, Frames(init), [t.frame]);
    }
  }

  /**
   * The frame that completes a run of the minimum length starts a recording whose
   * buffer is the pre-buffer, the run, and the run's last frame once more.
   */
  lemma ConfirmRun<F>(s: Session<F>, ticks: seq<Tick<F>>)
    requires Inv(s) && !s.recording && AllSpeech(ticks)
    requires s.speechFrameCounter + |ticks| == MINIMUM_CONSECUTIVE_SPEECH_FRAMES
    ensures |ticks| > 0
    ensures Run(s, ticks) == Ran(
      Session(true, s.preBuffer + Frames(ticks) + [ticks[|ticks| - 1].frame], 0,
              MINIMUM_CONSECUTIVE_SPEECH_FRAMES, [], true),
      [])
  {
    var init, t := ticks[..|ticks| - 1], ticks[|ticks| - 1];
    SplitLast(ticks);
    var armed := Session(false, [], 0, s.speechFrameCounter + |init|, s.preBuffer + Frames(init),
                         s.speechDetected || init != []);
    assert Run(s, init) == Ran(armed, []) by {
      assert AllSpeech(init) by { assert forall i :: 0 <= i < |init| ==> init[i] == ticks[i]; }
      ArmingRun(s, init);
    }
    assert Next(armed, t) == Stepped(Session(true, armed.preBuffer + [t.frame] + [t.frame], 0,
                                             MINIMUM_CONSECUTIVE_SPEECH_FRAMES, [], true), None) by {
      ConfirmStep(armed, t);
    }
    assert Run(s, ticks) == Ran(Next(armed, t).next, []) by {
      RunSnoc(s, init, t);
    }
    assert armed.preBuffer + [t.frame] == s.preBuffer + Frames(ticks) by {
      StreamSnoc(init, t);
      AppendAssoc(s.preBuffer, Frames(init), [t.frame]);
    }
  }

  /** Non-speech frames below the threshold are appended and counted, and nothing is saved. */
  lemma {:induction false} SilentRun<F>(s: Session<F>, ticks: seq<Tick<F>>)
    requires Inv(s) && s.recording && NoSpeech(ticks)
    requires s.silenceCounter + |ticks| < SILENCE_THRESHOLD
    ensures Run(s, ticks) == Ran(
      s.(buffer := s.buffer + Frames(ticks), silenceCounter := s.silenceCounter + |ticks|,
         speechFrameCounter := if ticks == [] then s.speechFrameCounter else 0),
      [])
    decreases |ticks|
  {
    if ticks == [] {
      assert s.buffer + Frames(ticks) == s.buffer;
    } else {
      var init, t := ticks[..|ticks| - 1], ticks[|ticks| - 1];
      SplitLast(ticks);
      SilentRun(s, init);
      RunSnoc(s, init, t);
      SilenceStep(Run(s, init).last, t);
      StreamSnoc(init, t);
      AppendAssoc(s.buffer, Frames(init), [t.frame]);
    }
  }

  /**
   * A silence run that reaches the threshold ends the recording with a single save
   * of everything buffered, the whole run included, seeing the counter at the threshold.
   */
  lemma ClosingRun<F>(s: Session<F>, ticks: seq<Tick<F>>)
    requires Inv(s) && s.recording && NoSpeech(ticks)
    requires s.silenceCounter + |ticks| == SILENCE_THRESHOLD
    ensures |ticks| > 0
    ensures Run(s, ticks) == Ran(
      Session(false, [], 0, 0, s.preBuffer, false),
      [SaveCall(s.buffer + Frames(ticks), SILENCE_THRESHOLD, ticks[|ticks| - 1].env)])
  {
    var init, t := ticks[..|ticks| - 1], ticks[|ticks| - 1];
    SplitLast(ticks);
    var quiet := s.(buffer := s.buffer + Frames(init), silenceCounter := s.silenceCounter + |init|,
                    speechFrameCounter := if init == [] then s.speechFrameCounter else 0);
    assert Run(s, init) == Ran(quiet, []) by {
      assert NoSpeech(init) by { assert forall i :: 0 <= i < |init| ==> init[i] == ticks[i]; }
      SilentRun(s, init);
    }
    assert Next(quiet, t) == Stepped(Session(false, [], 0, 0, s.preBuffer, false),
                                     Some(SaveCall(quiet.buffer + [t.frame], SILENCE_THRESHOLD, t.env))) by {
      CloseStep(quiet, t);
    }
    assert Run(s, ticks) == Ran(Next(quiet, t).next, [] + OptionToSeq(Next(quiet, t).saved)) by {
      RunSnoc(s, init, t);
    }
    assert quiet.buffer + [t.frame] == s.buffer + Frames(ticks) by {
      StreamSnoc(init, t);
      AppendAssoc(s.buffer, Frames(init), [t.frame]);
    }
  }

  /** One frame of a recording that does not close it. */
  lemma RecordingStep<F>(s: Session<F>, history: seq<bool>, t: Tick<F>)
    requires Inv(s) && s.recording
    requires |history| == |s.buffer| && s.silenceCounter == TrailingNonSpeech(history)
    requires Next(s, t).saved == None
    ensures var n := Next(s, t).next;
      && Inv(n)
      && n.recording
      && n.buffer == s.buffer + [t.frame]
      && n.silenceCounter == TrailingNonSpeech(history + [IsSpeech(t.verdict)])
      && n.preBuffer == s.preBuffer + (if IsSpeech(t.verdict) then [t.frame] else [])
  {
    StepKeepsInv(s, t);
    var all := history + [IsSpeech(t.verdict)];
    assert all[..|all| - 1] == history;
  }

  lemma StreamSnoc<F>(ticks: seq<Tick<F>>, t: Tick<F>)
    ensures Frames(ticks + [t]) == Frames(ticks) + [t.frame]
    ensures Labels(ticks + [t]) == Labels(ticks) + [IsSpeech(t.verdict)]
    ensures SpeechFrames(ticks + [t]) == SpeechFrames(ticks) + (if IsSpeech(t.verdict) then [t.frame] else [])
  {
    assert (ticks + [t])[..|ticks|] == ticks;
  }

  /** What `RecordingRun` says of the state `r` reached from `s` over `ticks`. */
  ghost predicate RecordedSince<F>(s: Session<F>, history: seq<bool>, ticks: seq<Tick<F>>, r: Session<F>)
  {
    && Inv(r)
    && r.recording
    && r.buffer == s.buffer + Frames(ticks)
    && r.silenceCounter == TrailingNonSpeech(history + Labels(ticks))
    && r.preBuffer == s.preBuffer + SpeechFrames(ticks)
  }

  /** The inductive step of `RecordingRun`. */
  lemma RecordedSinceStep<F>(s: Session<F>, history: seq<bool>, ticks: seq<Tick<F>>, m: Session<F>, t: Tick<F>)
    requires |history| == |s.buffer|
    requires RecordedSince(s, history, ticks, m)
    requires Next(m, t).saved == None
    ensures RecordedSince(s, history, ticks + [t], Next(m, t).next)
  {
    RecordingStep(m, history + Labels(ticks), t);
    StreamSnoc(ticks, t);
    var v := IsSpeech(t.verdict);
    var sp := if v then [t.frame] else [];
    AppendAssoc(history, Labels(ticks), [v]);
    AppendAssoc(s.buffer, Frames(ticks), [t.frame]);
    AppendAssoc(s.preBuffer, SpeechFrames(ticks), sp);
  }

  /**
   * While a recording lasts (no save was made), every frame read, speech or not, is
   * appended to the buffer exactly once and nothing is removed; the silence counter
   * is the length of the non-speech run that ends the buffer and stays below the
   * threshold; and speech frames keep accumulating in the pre-buffer.
   */
  lemma {:induction false} RecordingRun<F>(s: Session<F>, history: seq<bool>, ticks: seq<Tick<F>>)
    requires Inv(s) && s.recording
    requires |history| == |s.buffer| && s.silenceCounter == TrailingNonSpeech(history)
    requires Run(s, ticks).saves == []
    ensures var r := Run(s, ticks).last;
      && r.recording
      && r.buffer == s.buffer + Frames(ticks)
      && r.silenceCounter == TrailingNonSpeech(history + Labels(ticks))
      && r.silenceCounter < SILENCE_THRESHOLD
      && r.preBuffer == s.preBuffer + SpeechFrames(ticks)
    decreases |ticks|
  {
    RecordingRunSince(s, history, ticks);
  }

  lemma {:induction false} RecordingRunSince<F>(s: Session<F>, history: seq<bool>, ticks: seq<Tick<F>>)
    requires Inv(s) && s.recording
    requires |history| == |s.buffer| && s.silenceCounter == TrailingNonSpeech(history)
    requires Run(s, ticks).saves == []
    ensures RecordedSince(s, history, ticks, Run(s, ticks).last)
    decreases |ticks|
  {
    if ticks == [] {
      assert history + Labels(ticks) == history;
      assert s.buffer + Frames(ticks) == s.buffer;
      assert s.preBuffer + SpeechFrames(ticks) == s.preBuffer;
    } else {
      var init, t := ticks[..|ticks| - 1], ticks[|ticks| - 1];
      SplitLast(ticks);
      var r := Run(s, init);
      var m, step := r.last, Next(r.last, t);
      assert Run(s, ticks) == Ran(step.next, r.saves + OptionToSeq(step.saved)) by {
        RunSnoc(s, init, t);
      }
      assert |r.saves| + |OptionToSeq(step.saved)| == 0;
      assert RecordedSince(s, history, init, m) by {
        RecordingRunSince(s, history, init);
      }
      RecordedSinceStep(s, history, init, m, t);
    }
  }

  /**
   * Onset gate: from a non-recording state, a stream in which no speech run reaches
   * the minimum never starts a recording and never saves; the speech counter is the
   * length of the speech run the stream ends with.
   */
  lemma {:induction false} NoOnsetWithoutLongRun<F>(s: Session<F>, ticks: seq<Tick<F>>)
    requires Inv(s) && !s.recording
    requires ShortRuns(s.speechFrameCounter, ticks)
    ensures var r := Run(s, ticks);
      !r.last.recording && r.saves == [] && r.last.speechFrameCounter == SpeechRunAtEnd(s.speechFrameCounter, ticks)
    decreases |ticks|
  {
    if ticks != [] {
      var init := ticks[..|ticks| - 1];
      forall k | 0 <= k <= |init|
        ensures SpeechRunAtEnd(s.speechFrameCounter, init[..k]) < MINIMUM_CONSECUTIVE_SPEECH_FRAMES
      {
        assert init[..k] == ticks[..k];
      }
      NoOnsetWithoutLongRun(s, init);
      RunKeepsInv(s, init);
      assert ticks[..|ticks|] == ticks;
    }
  }

  /**
   * After such a stream, the next frame starts a recording if and only if it
   * completes a speech run of the minimum length.
   */
  lemma OnsetIffLongRun<F>(s: Session<F>, ticks: seq<Tick<F>>, t: Tick<F>)
    requires Inv(s) && !s.recording
    requires ShortRuns(s.speechFrameCounter, ticks)
    ensures Run(s, ticks + [t]).last.recording <==>
      SpeechRunAtEnd(s.speechFrameCounter, ticks + [t]) >= MINIMUM_CONSECUTIVE_SPEECH_FRAMES
  {
    NoOnsetWithoutLongRun(s, ticks);
    assert (ticks + [t])[..|ticks|] == ticks;
  }

  /**
   * From any reachable state, every save call the loop makes sees the counter at the
   * threshold and a buffer holding the confirming run, its duplicate and the whole
   * silence run.
   */
  lemma {:induction false} LoopSaveCalls<F>(s: Session<F>, ticks: seq<Tick<F>>)
    requires Inv(s)
    ensures forall c :: c in Run(s, ticks).saves ==>
      c.silenceCounter == SILENCE_THRESHOLD
      && |c.buffer| >= SILENCE_THRESHOLD + MINIMUM_CONSECUTIVE_SPEECH_FRAMES + 1
    decreases |ticks|
  {
    if ticks != [] {
      var init, t := ticks[..|ticks| - 1], ticks[|ticks| - 1];
      SplitLast(ticks);
      LoopSaveCalls(s, init);
      RunKeepsInv(s, init);
      RunSnoc(s, init, t);
      StepKeepsInv(Run(s, init).last, t);
    }
  }

  /**
   * Such a call is never dropped by the one-frame guard: it writes the buffer less
   * the surplus silence, at least the confirming run, its duplicate and 3 kept frames.
   */
  lemma ClosingSaveIsWritten<F>(c: SaveCall<F>)
    requires c.silenceCounter == SILENCE_THRESHOLD
    requires |c.buffer| >= SILENCE_THRESHOLD + MINIMUM_CONSECUTIVE_SPEECH_FRAMES + 1
    ensures Outcome(c).Written?
    ensures |Outcome(c).frames| == |c.buffer| - (SILENCE_THRESHOLD - TRAILING_SILENCE_FRAMES)
    ensures |Outcome(c).frames| >= MINIMUM_CONSECUTIVE_SPEECH_FRAMES + 1 + TRAILING_SILENCE_FRAMES
  {
  }

  /**
   * On interrupt, a save happens exactly when a recording is in progress; it trims
   * with the silence counter as it stands, below the threshold, and is always written.
   */
  lemma InterruptSave<F>(s: Session<F>, env: SaveEnv)
    requires Inv(s)
    ensures Finalize(s, env).Some? <==> s.recording
    ensures s.recording ==> Finalize(s, env) == Some(SaveCall(s.buffer, s.silenceCounter, env))
    ensures s.recording ==> s.silenceCounter < SILENCE_THRESHOLD
    ensures s.recording ==> Outcome(Finalize(s, env).value).Written?
    ensures s.recording ==> |Outcome(Finalize(s, env).value).frames| >= MINIMUM_CONSECUTIVE_SPEECH_FRAMES + 1
  {
  }

  lemma OutcomesSnoc<F>(calls: seq<SaveCall<F>>, o: Option<SaveCall<F>>)
    ensures Outcomes(calls + OptionToSeq(o)) ==
      Outcomes(calls) + (if o.Some? then [Outcome(o.value)] else [])
  {
    if o.Some? {
      assert (calls + [o.value])[..|calls|] == calls;
    } else {
      assert calls + OptionToSeq(o) == calls;
    }
  }
}
