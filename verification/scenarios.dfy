/**
 * Concrete streams, with the configured minimum of 7 speech frames, silence
 * threshold of 100 frames and 3 kept trailing frames. Frames are arbitrary values;
 * only the verdicts are fixed.
 */
module Scenarios {
  import opened Persistence
  import opened Segmentation
  import opened SegmentationFacts

  /** Six speech frames, one non-speech frame, six speech frames: no recording starts. */
  lemma ShortRunsNeverStart<F>(a: seq<Tick<F>>, g: Tick<F>, b: seq<Tick<F>>)
    requires |a| == 6 && |b| == 6 && AllSpeech(a) && AllSpeech(b) && !IsSpeech(g.verdict)
    ensures Run(Initial(), a + [g] + b) == Ran(Session(false, [], 0, 6, Frames(b), true), [])
  {
    var s0: Session<F> := Initial();
    var s1 := Session(false, [], 0, 6, Frames(a), true);
    assert Run(s0, a) == Ran(s1, []) by {
      ArmingRun(s0, a);
    }
    var s2 := Session(false, [], 0, 0, [], true);
    assert Run(s0, a + [g]) == Ran(s2, []) by {
      RunSnoc(s0, a, g);
    }
    assert Run(s2, b) == Ran(Session(false, [], 0, 6, Frames(b), true), []) by {
      ArmingRun(s2, b);
    }
    RunAppend(s0, a + [g], b);
  }

  /**
   * Seven speech frames and a hundred non-speech frames: exactly one save, of a
   * 108-frame buffer (the seventh frame twice), written as its first 11 frames,
   * i.e. with three trailing silence frames, under the name stamped at the closing frame.
   */
  lemma SevenThenSilence<F>(a: seq<Tick<F>>, b: seq<Tick<F>>)
    requires |a| == 7 && AllSpeech(a)
    requires |b| == 100 && NoSpeech(b)
    ensures var buffer := Frames(a) + [a[6].frame] + Frames(b);
      var call := SaveCall(buffer, 100, b[99].env);
      && |buffer| == 108
      && Run(Initial(), a + b) == Ran(Initial(), [call])
      && Outcome(call).Written?
      && Outcome(call).frames == Frames(a) + [a[6].frame] + Frames(b)[..3]
      && Outcome(call).filename == FileName(b[99].env.timestamp, "flac")
  {
    var s0: Session<F> := Initial();
    ConfirmRun(s0, a);
    var s1 := Run(s0, a).last;
    assert s0.preBuffer + Frames(a) == Frames(a);
    ClosingRun(s1, b);
    RunAppend(s0, a, b);
    var buffer := Frames(a) + [a[6].frame] + Frames(b);
    assert buffer[..11] == Frames(a) + [a[6].frame] + Frames(b)[..3];
  }

  /**
   * The pre-buffer is not cleared when a recording closes: after eight speech frames
   * and a hundred non-speech frames, the next recording begins with the eighth frame
   * of the previous one.
   */
  lemma StalePreBufferCarriesOver<F>(a: seq<Tick<F>>, b: seq<Tick<F>>, c: seq<Tick<F>>)
    requires |a| == 8 && AllSpeech(a)
    requires |b| == 100 && NoSpeech(b)
    requires |c| == 7 && AllSpeech(c)
    ensures Run(Initial(), a + b + c).last.recording
    ensures Run(Initial(), a + b + c).last.buffer == [a[7].frame] + Frames(c) + [c[6].frame]
  {
    var s0: Session<F> := Initial();
    var s2 := EightSpeechFrames(a);
    ClosingRun(s2, b);
    RunAppend(s0, a, b);
    var s3 := Run(s2, b).last;
    ConfirmRun(s3, c);
    RunAppend(s0, a + b, c);
  }

  /** Eight speech frames: recording since the seventh, and the eighth is also in the pre-buffer. */
  lemma EightSpeechFrames<F>(a: seq<Tick<F>>) returns (s: Session<F>)
    requires |a| == 8 && AllSpeech(a)
    ensures !Run(Initial(), a[..6]).last.recording && Run(Initial(), a[..7]).last.recording
    ensures Run(Initial(), a) == Ran(s, [])
    ensures Inv(s) && s.recording && s.preBuffer == [a[7].frame]
    ensures s.buffer == Frames(a[..7]) + [a[6].frame, a[7].frame]
  {
    var s0: Session<F> := Initial();
    var a6, a7 := a[..6], a[..7];
    assert AllSpeech(a6) by { assert forall i :: 0 <= i < 6 ==> a6[i] == a[i]; }
    ArmingRun(s0, a6);
    assert AllSpeech(a7) by { assert forall i :: 0 <= i < 7 ==> a7[i] == a[i]; }
    ConfirmRun(s0, a7);
    assert a7 + [a[7]] == a;
    var s1 := Run(s0, a7).last;
    RunSnoc(s0, a7, a[7]);
    StepKeepsInv(s1, a[7]);
    s := Next(s1, a[7]).next;
  }
}
