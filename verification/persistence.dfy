/**
 * What `save_recording` does with a finished buffer: drop it when it is too short,
 * trim the surplus trailing silence, name the file once, and write it to the
 * network directory or, failing that, to the local backup directory.
 * The filesystem is an oracle: whether the network directory exists and whether
 * each of the two writes succeeds are inputs.
 */
module Persistence {
  import opened Wrappers
  import opened Text
  import opened Config

  datatype Location = Network | Backup

  /** A file path: a directory and the file name joined onto it. */
  datatype Target = Target(location: Location, filename: string)

  /** The outcomes of the three filesystem effects a save may meet. */
  datatype FsOracle = FsOracle(networkDirExists: bool, networkWriteOk: bool, backupWriteOk: bool)

  /** What a save sees of the outside world: the clock (already formatted) and the filesystem. */
  datatype SaveEnv = SaveEnv(timestamp: string, fs: FsOracle)

  /** The writes attempted, in order, and where the recording ended up, if anywhere. */
  datatype Delivery = Delivery(attempts: seq<Target>, savedAt: Option<Location>)

  datatype Container = Wav | Flac

  /** The outcome of one call of `save_recording`. */
  datatype SaveReport<F> =
    | Dropped
    | Written(frames: seq<F>, filename: string, container: Container, delivery: Delivery)

  /** `recording_<timestamp>.<format>`, with the format exactly as configured. */
  function FileName(timestamp: string, format: string): (name: string)
    ensures |name| == |"recording_"| + |timestamp| + 1 + |format|
    ensures name[..10] == "recording_"
    ensures name[10..10 + |timestamp|] == timestamp
    ensures name[|name| - |format| - 1..] == "." + format
  {
    "recording_" + timestamp + "." + format
  }

  /** The encoder dispatch: "wav" in any letter case selects WAV, anything else FLAC. */
  function ContainerFor(format: string): (c: Container)
    ensures c == Wav <==>
      |format| == 3 && LowerChar(format[0]) == 'w' && LowerChar(format[1]) == 'a' && LowerChar(format[2]) == 'v'
  {
    if Lower(format) == "wav" then Wav else Flac
  }

  lemma ContainerDispatch()
    ensures ContainerFor("wav") == Wav && ContainerFor("WAV") == Wav && ContainerFor("Wav") == Wav
    ensures ContainerFor("flac") == Flac && ContainerFor("") == Flac && ContainerFor("wave") == Flac
    ensures ContainerFor(OUTPUT_FORMAT) == Flac
  {
    assert Lower("WAV") == "wav";
    assert Lower("Wav") == "wav";
    assert Lower("flac") != "wav";
    assert |Lower("wave")| == 4;
  }

  /**
   * The primary/fallback decision. The network write is attempted only when its
   * directory exists; the backup write exactly when the network path failed for
   * either reason; a failed backup write is absorbed, so the recording is lost.
   */
  function Deliver(filename: string, fs: FsOracle): (d: Delivery)
    ensures forall t :: t in d.attempts ==> t.filename == filename
    ensures Target(Network, filename) in d.attempts <==> fs.networkDirExists
    ensures Target(Backup, filename) in d.attempts <==> !fs.networkDirExists || !fs.networkWriteOk
    ensures |d.attempts| == (if fs.networkDirExists then 1 else 0) + (if !fs.networkDirExists || !fs.networkWriteOk then 1 else 0)
    ensures forall i, j :: 0 <= i < j < |d.attempts| ==>
      d.attempts[i].location == Network && d.attempts[j].location == Backup
    ensures d.savedAt == Some(Network) <==> fs.networkDirExists && fs.networkWriteOk
    ensures d.savedAt == Some(Backup) <==> (!fs.networkDirExists || !fs.networkWriteOk) && fs.backupWriteOk
    ensures d.savedAt.Some? ==> Target(d.savedAt.value, filename) in d.attempts
  {
    var network := Target(Network, filename);
    var backup := Target(Backup, filename);
    if fs.networkDirExists && fs.networkWriteOk then
      Delivery([network], Some(Network))
    else
      var tried := if fs.networkDirExists then [network] else [];
      Delivery(tried + [backup], if fs.backupWriteOk then Some(Backup) else None)
  }

  /** Python's `xs[:-k]`: all but the last k elements, nothing when k reaches the length, and nothing at all when k is 0. */
  function SliceToNegative<T>(xs: seq<T>, k: nat): (r: seq<T>)
    ensures r <= xs
    ensures |r| == if 0 < k < |xs| then |xs| - k else 0
  {
    if k == 0 then [] else xs[..if k < |xs| then |xs| - k else 0]
  }

  /**
   * Trailing-silence trimming: when the closing silence run is longer than the
   * amount to keep, exactly the surplus is cut from the end (or everything, if
   * the buffer is shorter than the surplus); otherwise the buffer is unchanged.
   */
  function Trimmed<T>(buffer: seq<T>, silenceCounter: nat, keep: nat): (r: seq<T>)
    ensures r <= buffer
    ensures silenceCounter <= keep ==> r == buffer
    ensures silenceCounter > keep ==>
      |r| == if silenceCounter - keep < |buffer| then |buffer| - (silenceCounter - keep) else 0
  {
    if silenceCounter > keep then SliceToNegative(buffer, silenceCounter - keep) else buffer
  }

  /** Number of non-speech labels (false) at the end of a label sequence. */
  function TrailingNonSpeech(labels: seq<bool>): (n: nat)
    ensures n <= |labels|
  {
    if labels == [] || labels[|labels| - 1] then 0
    else 1 + TrailingNonSpeech(labels[..|labels| - 1])
  }

  function Min(a: nat, b: nat): nat { if a < b then a else b }

  /**
   * One `save_recording` call on a buffer and the current silence counter. The
   * length check looks at the untrimmed buffer; only then is it trimmed, named
   * once and delivered.
   */
  function Save<F>(buffer: seq<F>, silenceCounter: nat, env: SaveEnv): (r: SaveReport<F>)
    ensures r.Dropped? <==> |buffer| <= 1
    ensures r.Written? ==> r.frames <= buffer
    ensures r.Written? ==> r.frames == Trimmed(buffer, silenceCounter, TRAILING_SILENCE_FRAMES)
    ensures r.Written? ==> r.container == ContainerFor(OUTPUT_FORMAT)
    ensures r.Written? ==> r.delivery == Deliver(r.filename, env.fs)
    ensures r.Written? ==> forall t :: t in r.delivery.attempts ==> t.filename == r.filename
    ensures r.Written? ==> r.filename == FileName(env.timestamp, OUTPUT_FORMAT)
  {
    if |buffer| <= 1 then Dropped
    else
      var name := FileName(env.timestamp, OUTPUT_FORMAT);
      Written(Trimmed(buffer, silenceCounter, TRAILING_SILENCE_FRAMES), name,
              ContainerFor(OUTPUT_FORMAT), Deliver(name, env.fs))
  }

  /** Dropping the last frames of a buffer whose tail is a silence run shortens the run by as much. */
  lemma {:induction false} TrailingNonSpeechPrefix(labels: seq<bool>, n: nat)
    requires TrailingNonSpeech(labels) < |labels|
    requires |labels| - TrailingNonSpeech(labels) <= n <= |labels|
    ensures TrailingNonSpeech(labels[..n]) == n - (|labels| - TrailingNonSpeech(labels))
  {
    if n < |labels| {
      var init := labels[..|labels| - 1];
      assert init[..n] == labels[..n];
      TrailingNonSpeechPrefix(init, n);
    } else {
      assert labels[..n] == labels;
    }
  }

  /**
   * When the silence counter is the true length of the buffer's closing silence run
   * and some speech precedes it, trimming leaves exactly min(counter, keep) trailing
   * non-speech frames and removes nothing else; trimming the result again with its
   * new run length changes nothing.
   */
  lemma TrimKeepsSilence(labels: seq<bool>, silenceCounter: nat, keep: nat)
    requires silenceCounter == TrailingNonSpeech(labels) < |labels|
    ensures var r := Trimmed(labels, silenceCounter, keep);
      && |r| == |labels| - silenceCounter + Min(silenceCounter, keep)
      && TrailingNonSpeech(r) == Min(silenceCounter, keep)
      && Trimmed(r, TrailingNonSpeech(r), keep) == r
  {
    var r := Trimmed(labels, silenceCounter, keep);
    TrailingNonSpeechPrefix(labels, |r|);
    assert r == labels[..|r|];
  }
}
