# Bark narration scripts: chunking, file naming, merge order and post-processing

These scripts turn a long narration into speech with the Bark model. They
cut the text into chunks, synthesise each chunk into its own
`bark_generation_{i}.wav`, then trim silence, cross-fade neighbouring
chunks, and append all chunk files into one `combined_audio.wav`. This
project models the sequential logic the scripts themselves define, and
proves what that logic guarantees:

- `PyText`: Python's `str.split()` and `" ".join`, `str.split(sep)`,
  `str.replace`, `endswith`, substring `in` and `os.path.join`, written out
  on `seq<char>`.
- `PyInt`: `str(i)` and `int(s)` for decimal integers; the `ValueError` of
  `int()` is `None`.
- `Chunker`: `chunk_text` of `multi_audio_test.py`. It is a method with the
  loop of the script, and it is proved against the specification function
  `Pack`. The BERT tokenizer is the parameter `tok`, which gives a text's
  token count. Nothing is assumed about `tok`, not even monotonicity.
- `AudioFiles`: the chunk file name, the filter and sort key of
  `merge_audio_files`, the key-sorted merge order, and the loop that appends
  the clips. The directory listing is an input, and each clip is
  represented by its duration.
- `PostProcess`: the clamped cross-fade position of `add_overlap`, and the
  sequence of `trim_silence`/`add_overlap` calls that `main` issues for `n`
  chunks.

Points worth knowing:

- The files that `add_overlap` writes contain `overlapped`, so the merge
  filters them out (`OverlapOutputsNotMerged`). The cross-fades therefore
  never reach the combined track.
- The sort key is computed on the joined path. `combined_audio.wav` and the
  `_overlapped` files have no integer key; `int()` would raise on them.
- With zero chunks, `range(-1)` is empty and `main` trims
  `bark_generation_-1.wav` (`PlanWithoutChunks`). Chunk indices are
  therefore `int`. No such file exists, so `AudioSegment.from_wav` raises
  inside `trim_silence` (generate_audio.py:44) and `main` stops before the
  merge. The same happens when a step names the file of a chunk whose
  synthesis failed, because `process_text_snippet` only logs its error
  (generate_audio.py:32-34) and writes no file. The plan lists the steps
  `main` attempts; it does not model where they raise.
- `chunk_text` returns an empty first chunk when the text has no words or
  when its first word alone overflows (`OnlyFirstChunkMayBeEmpty`).

## Model

| member | source | states |
|---|---|---|
| PyText.IsSpace | multi_audio_test.py:25 | definition of the whitespace set of `str.split()`, by code point |
| PyText.Split | multi_audio_test.py:25 | `text.split()`: every piece it returns is a non-empty word without whitespace |
| PyText.SplitBlank | multi_audio_test.py:25 | `text.split()` is empty exactly when every character of the text is whitespace |
| PyText.SplitJoin | multi_audio_test.py:25-38 | splitting words joined by single spaces gives those words back |
| PyText.Join | multi_audio_test.py:29 | definition of `" ".join(words)`: the words with a single space between neighbours |
| PyText.JoinEmpty | multi_audio_test.py:33 | joined words are the empty string exactly when there are no words |
| PyText.JoinSingleSpaced | multi_audio_test.py:33 | words joined by `" "` have no leading, trailing or repeated whitespace |
| PyText.SplitOn | generate_audio.py:66 | `s.split(sep)` has at least one part, and no part contains `sep` |
| PyText.JoinSplitOn | generate_audio.py:66 | joining the parts of `s.split(sep)` with `sep` gives `s` back |
| PyText.SplitOnAbsent | generate_audio.py:66 | a string without `sep` splits into itself alone |
| PyText.SplitOnAround | generate_audio.py:66 | splitting `a + sep + b` gives the parts of `a`, then the parts of `b` |
| PyText.SplitOnFirstIsPrefix | generate_audio.py:66 | the first part of `s.split(sep)` is a prefix of `s` |
| PyText.Replace | generate_audio.py:66 | definition of `str.replace` for a non-empty pattern, the only kind the script passes: every non-overlapping occurrence, from left to right, replaced |
| PyText.ReplaceAbsent | generate_audio.py:66 | `replace` changes nothing when the text lacks a character of the pattern |
| PyText.EndsWith | generate_audio.py:61 | definition of `str.endswith`: the text's last characters are the suffix |
| PyText.Contains | generate_audio.py:63 | definition of substring `in` |
| PyText.ContainsAt | generate_audio.py:63 | `pat in s` holds exactly when `pat` occurs at some position of `s` |
| PyText.OccursInSuffix | generate_audio.py:63 | an occurrence inside a suffix of a text is an occurrence in the text |
| PyText.PathJoin | generate_audio.py:28 | `os.path.join(dir, name)` ends with `name` |
| PyInt.IntToString | generate_audio.py:27 | definition of `str(i)`: a `-` and then the digits of `-i` when `i` is negative, else the digits of `i` |
| PyInt.NatToString | generate_audio.py:27 | `str(n)` is a non-empty run of decimal digits without a leading zero |
| PyInt.IsIntSpace | generate_audio.py:65-66 | definition of the whitespace `int()` skips: the `str.split()` set without U+001C..U+001F |
| PyInt.ParseInt | generate_audio.py:65-66 | definition of `int(s)`: strip the whitespace `int()` skips, take an optional sign and then ASCII digits; `None` where `int()` raises (apart from the digit limit under "## Left out") |
| PyInt.ParseIntOfIntToString | generate_audio.py:65-66 | `int(str(i)) == i` for every integer (CPython's 4300-digit limit is not modelled, see "## Left out") |
| PyInt.IntToStringInjective | generate_audio.py:27 | different integers print differently |
| PyInt.ParseIntRejectsWord | generate_audio.py:65-66 | `int()` raises on a word that does not start with a digit or a sign |
| PyInt.ParseIntReadsDigits | generate_audio.py:65-66 | whatever `int()` accepts contains a decimal digit |
| PyInt.ParseIntWhitespace | generate_audio.py:65-66 | `int()` skips surrounding whitespace such as tab and no-break space, but raises on the separator U+001C, which `str.split()` counts as whitespace |
| PyInt.StripKeepsInside | generate_audio.py:65-66 | the whitespace-stripped text lies inside the original |
| Chunker.Overflows | multi_audio_test.py:29-32 | definition of the test: the token count of the words joined by spaces, plus 2, exceeds `max_tokens` |
| Chunker.Chunks | multi_audio_test.py:23-39 | definition of what `chunk_text` returns: the word lists of `Pack` over `text.split()`, each joined by spaces |
| Chunker.Pack | multi_audio_test.py:27-38 | definition of the loop's result: each word joins the current chunk unless the joined chunk plus `[CLS]`/`[SEP]` exceeds `max_tokens`; then the chunk is closed and the word starts the next one; the last chunk is closed at the end |
| Chunker.ChunkText | multi_audio_test.py:23-39 | with `max_tokens` 400 unless the caller gives it, the loop returns exactly the chunks of the specification `Pack`, and calls the tokenizer once per word of `text.split()` |
| Chunker.PackCovers | multi_audio_test.py:25-38 | the chunk word lists, concatenated, are the current words followed by all remaining words |
| Chunker.PackStartsWithCurrent | multi_audio_test.py:29-36 | the first chunk extends the current words and then only the next words, in order |
| Chunker.PackLaterChunksNonEmpty | multi_audio_test.py:34 | every chunk after the first is non-empty, because a reset starts it with a word |
| Chunker.PackFits | multi_audio_test.py:29-36 | every chunk has at most one word or fits `tok + 2 <= max_tokens` |
| Chunker.PackMaximal | multi_audio_test.py:32-34 | each chunk but the last overflows with the first word of the next one |
| Chunker.PackWords | multi_audio_test.py:25-38 | every chunk holds only words |
| Chunker.SplitChunks | multi_audio_test.py:33-38 | splitting each returned chunk gives back its word list |
| Chunker.ChunksCoverText | multi_audio_test.py:25-38 | the words of all chunks, in order, are exactly `text.split()` |
| Chunker.ChunksNeverEmpty | multi_audio_test.py:38 | there is always a chunk, and an all-whitespace text gives `[""]` |
| Chunker.ChunksWithinLimit | multi_audio_test.py:29-36 | every chunk is at most one word or needs at most `max_tokens` tokens with `[CLS]`/`[SEP]` |
| Chunker.ChunksAreGreedy | multi_audio_test.py:32-34 | every chunk but the last would overflow with the first word of the next chunk |
| Chunker.OnlyFirstChunkMayBeEmpty | multi_audio_test.py:32-38 | only the first chunk can be `""`, and it is exactly when there are no words or the first word alone overflows |
| Chunker.ChunksAreSingleSpaced | multi_audio_test.py:33-38 | each chunk is its words joined by single spaces |
| AudioFiles.ChunkFileName | generate_audio.py:27 | definition of the chunk file name: `bark_generation_`, then `str(i)`, then `.wav` |
| AudioFiles.ChunkPath | generate_audio.py:28 | definition of the chunk path: `os.path.join(output_dir, ChunkFileName(i))`, as also built at lines 109-110 and 115-116 |
| AudioFiles.OverlapOutputPath | generate_audio.py:56 | definition of the cross-fade output: the first path followed by `_overlapped.wav` |
| AudioFiles.KeyText | generate_audio.py:66 | definition of the key text: the part after the last `_`, cut at its first `.`, with `bark_generation_` replaced by nothing |
| AudioFiles.SortKey | generate_audio.py:65-66 | definition of the sort key: `int()` of the key text, `None` where it raises |
| AudioFiles.KeyTextIgnoresReplace | generate_audio.py:66 | `.replace('bark_generation_', '')` never changes the key text |
| AudioFiles.KeyTextOfName | generate_audio.py:66 | the key text of `stem_tail.ext` in any directory is `tail` |
| AudioFiles.SortKeyOfChunkPath | generate_audio.py:65-66 | the sort key of the file that line 27-28 names for chunk `i` is `i`, in any directory |
| AudioFiles.ChunkPathInjective | generate_audio.py:27-28 | different chunks are written to different paths |
| AudioFiles.SortKeyOfCombinedAudio | generate_audio.py:65-66 | `combined_audio.wav`, the merge's own output (line 73-74), has no integer key |
| AudioFiles.SortKeyOfOverlapOutput | generate_audio.py:65-66 | an `_overlapped.wav` file (line 56) has no integer key |
| AudioFiles.WavPaths | generate_audio.py:60-61 | definition of the comprehension: the joined paths of the listed names ending in `.wav`, in listing order |
| AudioFiles.WithoutOverlapped | generate_audio.py:63 | definition of the filter: the paths not containing `overlapped`, in order |
| AudioFiles.MergeCandidates | generate_audio.py:60-63 | definition of the candidates: the joined paths of the listed `.wav` names, in listing order, without those containing `overlapped` |
| AudioFiles.MergeCandidatesMembers | generate_audio.py:60-63 | a path is a candidate exactly when it joins a listed `.wav` name and does not contain `overlapped` |
| AudioFiles.WithoutOverlappedMembers | generate_audio.py:63 | the filter keeps exactly the paths without `overlapped` |
| AudioFiles.WavPathsMembers | generate_audio.py:60-61 | the comprehension yields exactly the joined paths of the listed `.wav` names |
| AudioFiles.MergeCandidatesAreWav | generate_audio.py:60-63 | every candidate ends in `.wav` and does not contain `overlapped` |
| AudioFiles.KeyAll | generate_audio.py:65-66 | the key is computed for every path, or `ValueError` names a path whose key raises |
| AudioFiles.SortByKey | generate_audio.py:65 | definition of `sorted` by key: a stable insertion sort |
| AudioFiles.InsertPermutation | generate_audio.py:65 | insertion adds exactly the one element |
| AudioFiles.InsertSorted | generate_audio.py:65 | inserting into a key-ordered list keeps it key-ordered |
| AudioFiles.InsertBounded | generate_audio.py:65 | insertion keeps every key above a common lower bound |
| AudioFiles.SortByKeySorted | generate_audio.py:65-66 | `sorted` by key returns a key-ordered permutation of its input |
| AudioFiles.PathsPermutation | generate_audio.py:65-66 | permuted keyed paths give permuted paths |
| AudioFiles.MergeOrder | generate_audio.py:60-66 | definition of the merge list: the candidates sorted by key, or the `ValueError` of the first candidate without an integer key |
| AudioFiles.MergeOrderFails | generate_audio.py:65-66 | the merge fails exactly when a candidate has no integer key, and it names such a candidate |
| AudioFiles.KeyedSortSortedPermutation | generate_audio.py:65-66 | sorting paths by any integer key gives a permutation of them, each with a key, in ascending key order |
| AudioFiles.MergeOrderSortedPermutation | generate_audio.py:60-66 | on success the merge list is a permutation of the candidates, in ascending key order |
| AudioFiles.ListedCandidateHasKey | generate_audio.py:55-66 | a listed chunk or `_overlapped` file that passes the filter is a chunk file and has an integer key |
| AudioFiles.ChunkListingMerges | generate_audio.py:55-66 | a directory holding the chunk files and the `_overlapped` files written next to them never makes the sort raise |
| AudioFiles.MergeFollowsChunkIndex | generate_audio.py:65-66 | chunk files are merged in ascending chunk index |
| AudioFiles.MergeOrderOnlyWav | generate_audio.py:60-63 | the merge list holds only `.wav` paths without `overlapped` |
| AudioFiles.OverlapOutputsNotMerged | generate_audio.py:55-63 | the file `add_overlap` writes is never a merge candidate, whatever else the directory holds |
| AudioFiles.TotalDuration | generate_audio.py:67-70 | definition of the combined length: the sum of the clip durations of the files |
| AudioFiles.TotalDurationAppend | generate_audio.py:67-70 | appending two track lists adds their durations |
| AudioFiles.TotalDurationPermutation | generate_audio.py:67-70 | the combined duration does not depend on the order of the clips |
| AudioFiles.MergeAudioFiles | generate_audio.py:59-70 | the loop appends the ordered clips, so the track is as long as their total; a key error is reported |
| AudioFiles.MergedDurationIsSumOfCandidates | generate_audio.py:60-70 | the merged track is as long as all candidate clips together |
| PostProcess.OverlapPosition | generate_audio.py:53 | the position is `len1 - overlap` when that is not negative, else 0, and never beyond the first clip |
| PostProcess.Plan | generate_audio.py:108-116 | definition of the step list: for each `i` in `range(n - 1)` trim chunk `i` and overlay it with chunk `i + 1`, then trim chunk `n - 1` |
| PostProcess.PostProcessPlan | generate_audio.py:108-116 | the loop issues exactly the steps of `Plan`, each on the files `bark_generation_{i}.wav` of its chunks |
| PostProcess.PairStepsAt | generate_audio.py:108-112 | `k` rounds give `2k` steps: trim `i`, then overlay `i` with `i + 1` |
| PostProcess.PlanAt | generate_audio.py:108-116 | for `n >= 1` chunks the plan has `2n - 1` steps, alternating trim and overlay, ending with trim `n - 1` |
| PostProcess.PlanWithoutChunks | generate_audio.py:108-116 | with no chunks the only step trims `bark_generation_-1.wav` |
| PostProcess.PlanNoRepeats | generate_audio.py:108-116 | no step is issued twice, so each chunk is trimmed once (its file is its own, by `ChunkPathInjective`) |
| PostProcess.PlanTrims | generate_audio.py:108-116 | the plan trims exactly chunks `0 .. n-1` |
| PostProcess.PlanOverlays | generate_audio.py:108-112 | the plan overlays exactly the pairs `(i, i + 1)` with `i + 1 < n`, at 200 ms |
| PostProcess.OverlayBetweenTrims | generate_audio.py:108-116 | each overlay comes right after its first chunk is trimmed and right before its second chunk is, so it reads the first clip trimmed and the second untrimmed |

## Left out

- Bark `generate_audio`, `preload_models` and `write_wav`, and so `process_text_snippet` apart from its file name: speech synthesis and file writing are external.
- The spaCy sentence splitter in `generate_audio.py`'s `chunk_text`: a pretrained model outside the repository.
- BERT tokenization: the token count is the parameter `tok`.
- pydub audio operations (`from_wav`, `strip_silence`, `overlay`, `export`, `+=`): a clip is its duration in milliseconds. The trim and the cross-fade are recorded as steps, and their effect on the samples is not modelled.
- Threads in `main` and their `join`: they only run the synthesis concurrently.
- Filesystem, clock and logging: `create_output_directory`, `os.listdir` (an input sequence), the error log, and `print`.
- multi_audio_test_4.py: it repeats the post-processing of generate_audio.py with a placeholder trim.
- PyInt.ParseInt: `int()` also accepts `_` digit separators and non-ASCII decimal digits. These are not modelled; a key text never contains `_`. Current CPython (3.11 on, and the 3.7-3.10 security releases) also raises on a decimal text of more than 4300 digits; the model accepts any length. A key text is part of a name from `os.listdir`, which is at most 255 bytes, so it never reaches that limit.
- PyInt.IntToString: current CPython raises `ValueError` in `str(i)` when `i` has more than 4300 decimal digits; the model always returns the digits. The index of `enumerate` that generate_audio.py:27 prints never comes near that size.
- PyText.PathJoin: only the two-argument POSIX `os.path.join` is modelled.
- AudioFiles.SortByKey: the stability of `sorted` for equal keys is built into `Insert`, but no lemma states it.
- AudioFiles.MergeAudioFiles: the clip durations are a function of the path, so a file that changes between reads is not modelled. pydub's `len()` is `round(1000 * frames / frame_rate)`, so the combined track's length equals the sum of the clip lengths only up to that rounding.
- PostProcess.PostProcessPlan: a step on a file that does not exist (chunk `-1`, or a chunk whose synthesis failed) raises in `AudioSegment.from_wav` and ends `main`; the plan does not model that failure.
