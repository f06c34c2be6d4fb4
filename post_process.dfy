/**
 The post-processing that `main` in generate_audio.py runs once every chunk
 has been synthesised: for each pair of neighbouring chunks it trims the
 silence of the first and cross-fades the two into a separate `_overlapped`
 file, and at the end it trims the last chunk. The model records the
 sequence of file operations the loop issues, each naming the chunks whose
 files it works on (chunk `i` lives at `ChunkPath(dir, i)`, and different
 chunks at different paths, by `ChunkPathInjective`). What the operations do
 to the audio is not modelled, except for the start position of the
 cross-fade.
 */
module PostProcess {
  import opened PyInt
  import opened AudioFiles

  /** The cross-fade length, in milliseconds, that `main` passes. */
  const OVERLAP_MS: int := 200

  /** `max(len(audio1) - overlap_duration, 0)`: where the second clip starts
      inside the first one. */
  function OverlapPosition(len1: nat, overlapMs: int): (position: nat)
    ensures len1 >= overlapMs ==> position == len1 - overlapMs
    ensures len1 < overlapMs ==> position == 0
    ensures overlapMs >= 0 ==> position <= len1
  {
    if len1 - overlapMs > 0 then len1 - overlapMs else 0
  }

  /** One file operation of the post-processing: `trim_silence` on the file
      of chunk `chunk`, or `add_overlap` on the files of chunks `first` and
      `second`. */
  datatype Step = Trim(chunk: int) | Overlay(first: int, second: int, overlapMs: int)

  /** The steps of the first `k` rounds of the pair loop. */
  function PairSteps(k: nat): seq<Step> {
    if k == 0 then []
    else PairSteps(k - 1) + [Trim(k - 1), Overlay(k - 1, k, OVERLAP_MS)]
  }

  /** All steps for `n` chunks: `range(n - 1)` rounds of the pair loop, then
      the trim of chunk `n - 1`. */
  function Plan(n: nat): seq<Step> {
    PairSteps(if n >= 1 then n - 1 else 0) + [Trim(n - 1)]
  }

  /** Position by position: even steps trim chunk `j / 2`, odd steps overlay
      chunk `j / 2` with the next one. */
  function StepAt(j: nat): Step {
    if j % 2 == 0 then Trim(j / 2) else Overlay(j / 2, j / 2 + 1, OVERLAP_MS)
  }

  /** The loop of `main` after the threads have joined; `dir` is the output
      directory, and `paths` lists the files each step works on. */
  method PostProcessPlan(dir: string, n: nat) returns (steps: seq<Step>, paths: seq<seq<string>>)
    ensures steps == Plan(n)
    ensures |paths| == |steps|
    ensures forall k | 0 <= k < |steps| :: paths[k] == StepFiles(dir, steps[k])
  {
    steps := [];
    paths := [];
    var rounds := if n >= 1 then n - 1 else 0;
    for i := 0 to rounds
      invariant steps == PairSteps(i)
      invariant |paths| == |steps|
      invariant forall k | 0 <= k < |steps| :: paths[k] == StepFiles(dir, steps[k])
    {
      var audioPath1 := ChunkPath(dir, i);
      var audioPath2 := ChunkPath(dir, i + 1);
      steps := steps + [Trim(i)];
      paths := paths + [[audioPath1]];
      steps := steps + [Overlay(i, i + 1, OVERLAP_MS)];
      paths := paths + [[audioPath1, audioPath2]];
    }
    steps := steps + [Trim(n - 1)];
    paths := paths + [[ChunkPath(dir, n - 1)]];
  }

  /** The files a step works on. */
  function StepFiles(dir: string, step: Step): seq<string> {
    match step
    case Trim(i) => [ChunkPath(dir, i)]
    case Overlay(i, k, _) => [ChunkPath(dir, i), ChunkPath(dir, k)]
  }

  lemma {:induction false} PairStepsAt(k: nat)
    ensures |PairSteps(k)| == 2 * k
    ensures forall j | 0 <= j < 2 * k :: PairSteps(k)[j] == StepAt(j)
  {
    if k > 0 {
      PairStepsAt(k - 1);
      var ps := PairSteps(k);
      forall j | 0 <= j < 2 * k
        ensures ps[j] == StepAt(j)
      {
        if j == 2 * k - 2 {
          assert j / 2 == k - 1 && j % 2 == 0;
        } else if j == 2 * k - 1 {
          assert j / 2 == k - 1 && j % 2 == 1;
        } else {
          assert ps[j] == PairSteps(k - 1)[j];
        }
      }
    }
  }

  /** For `n >= 1` chunks the plan has `2n - 1` steps, alternating trim and
      overlay, and ends by trimming chunk `n - 1`. */
  lemma PlanAt(n: nat)
    requires n >= 1
    ensures |Plan(n)| == 2 * n - 1
    ensures forall j | 0 <= j < |Plan(n)| :: Plan(n)[j] == StepAt(j)
  {
    var ps := PairSteps(n - 1);
    var plan := Plan(n);
    PairStepsAt(n - 1);
    forall j | 0 <= j < |plan|
      ensures plan[j] == StepAt(j)
    {
      if j < |ps| {
        assert plan[j] == ps[j];
      } else {
        assert j / 2 == n - 1 && j % 2 == 0;
      }
    }
  }

  /** With no chunks at all the loop does nothing and the final trim names
      chunk `-1`, the file `bark_generation_-1.wav`. No such file is ever
      written, so in the script that trim raises and `main` ends there. */
  lemma PlanWithoutChunks(dir: string)
    ensures Plan(0) == [Trim(-1)]
    ensures ChunkFileName(-1) == "bark_generation_-1.wav"
  {
    assert IntToString(-1) == "-1";
  }

  /** No operation is issued twice: in particular each chunk is trimmed once. */
  lemma PlanNoRepeats(n: nat)
    ensures forall j1, j2 | 0 <= j1 < j2 < |Plan(n)| :: Plan(n)[j1] != Plan(n)[j2]
  {
    if n >= 1 {
      PlanAt(n);
    }
  }

  /** The plan trims exactly the chunks `0 .. n-1` (chunk `-1` when there are
      none). */
  lemma PlanTrims(n: nat, i: int)
    ensures n >= 1 ==> (Trim(i) in Plan(n) <==> 0 <= i < n)
    ensures n == 0 ==> (Trim(i) in Plan(n) <==> i == -1)
  {
    if n >= 1 {
      PlanAt(n);
      var plan := Plan(n);
      if Trim(i) in plan {
        var j :| 0 <= j < |plan| && plan[j] == Trim(i);
        assert StepAt(j) == Trim(i);
      }
      if 0 <= i < n {
        assert plan[2 * i] == StepAt(2 * i);
      }
    }
  }

  /** The plan overlays exactly the neighbouring pairs `(i, i + 1)` with
      `i + 1 < n`, each with the 200 ms cross-fade. */
  lemma PlanOverlays(n: nat, a: int, b: int, overlapMs: int)
    ensures Overlay(a, b, overlapMs) in Plan(n) <==>
      0 <= a && b == a + 1 && b < n && overlapMs == OVERLAP_MS
  {
    var plan := Plan(n);
    if n >= 1 {
      PlanAt(n);
      if Overlay(a, b, overlapMs) in plan {
        var j :| 0 <= j < |plan| && plan[j] == Overlay(a, b, overlapMs);
        assert StepAt(j) == Overlay(a, b, overlapMs);
      }
      if 0 <= a && b == a + 1 && b < n && overlapMs == OVERLAP_MS {
        assert plan[2 * a + 1] == StepAt(2 * a + 1);
      }
    }
  }

  /** Each overlay of chunks `i` and `i + 1` comes right after chunk `i` is
      trimmed and right before chunk `i + 1` is: it reads the first clip
      trimmed and the second one untrimmed. */
  lemma OverlayBetweenTrims(n: nat, j: int)
    requires 0 <= j < |Plan(n)| && Plan(n)[j].Overlay?
    ensures 1 <= j < |Plan(n)| - 1
    ensures Plan(n)[j - 1] == Trim(Plan(n)[j].first)
    ensures Plan(n)[j + 1] == Trim(Plan(n)[j].second)
  {
    var plan := Plan(n);
    if n == 0 {
      assert false;
    }
    PlanAt(n);
    assert plan[j] == StepAt(j);
    assert plan[j - 1] == StepAt(j - 1);
    assert plan[j + 1] == StepAt(j + 1);
  }
}
