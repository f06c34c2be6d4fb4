/**
 File naming and merge ordering of generate_audio.py. Chunk `i` of the
 narration is written as `bark_generation_{i}.wav` in the run's output
 directory. The merge step lists that directory, keeps the `.wav` files whose
 joined path does not contain `overlapped`, orders them by the integer that
 the path carries after its last `_` and before the next `.`, and appends the
 clips one after another. The directory listing (`os.listdir`) and the
 duration of each clip are inputs of the model; a clip is its duration.
 */
module AudioFiles {
  import opened PyText
  import opened PyInt

  const NAME_PREFIX: string := "bark_generation_"
  const WAV: string := ".wav"
  const OVERLAPPED: string := "overlapped"
  const OVERLAP_SUFFIX: string := "_overlapped.wav"

  /** The merge either yields its value or stops with the `ValueError` that
      `int()` raises on the sort key of `path`. */
  datatype Outcome<+T> = Ok(value: T) | ValueError(path: string)

  /** `f'bark_generation_{i}.wav'`. */
  function ChunkFileName(i: int): string {
    NAME_PREFIX + IntToString(i) + WAV
  }

  /** `os.path.join(output_dir, f'bark_generation_{i}.wav')`. */
  function ChunkPath(dir: string, i: int): string {
    PathJoin(dir, ChunkFileName(i))
  }

  /** The file `add_overlap` writes next to its first clip. */
  function OverlapOutputPath(path1: string): string {
    path1 + OVERLAP_SUFFIX
  }

  /** `x.split('_')[-1].split('.')[0].replace('bark_generation_', '')`. */
  function KeyText(path: string): string {
    Replace(SplitOn(Last(SplitOn(path, '_')), '.')[0], NAME_PREFIX, "")
  }

  /** The sort key of the merge; `None` where `int()` raises. */
  function SortKey(path: string): Option<int> {
    ParseInt(KeyText(path))
  }

  /** The `.replace('bark_generation_', '')` step never changes anything: the
      text after the last `_` contains no `_`. */
  lemma KeyTextIgnoresReplace(path: string)
    ensures KeyText(path) == SplitOn(Last(SplitOn(path, '_')), '.')[0]
  {
    var last := Last(SplitOn(path, '_'));
    var first := SplitOn(last, '.')[0];
    SplitOnFirstIsPrefix(last, '.');
    assert '_' !in first by {
      assert forall c | c in first :: c in last;
    }
    assert '_' in NAME_PREFIX;
    ReplaceAbsent(first, NAME_PREFIX, "", '_');
  }

  /** The key text of `stem_tail.ext...` in any directory is `tail`, when
      `tail` has neither `_` nor `.`, `ext` has no `_` and `stem` does not
      start with `/`. */
  lemma {:induction false} KeyTextOfName(dir: string, stem: string, tail: string, ext: string)
    requires '_' !in tail && '.' !in tail && '_' !in ext
    requires stem != [] && stem[0] != '/'
    ensures KeyText(PathJoin(dir, stem + "_" + tail + "." + ext)) == tail
  {
    var name := stem + "_" + tail + "." + ext;
    var p := PathJoin(dir, name);
    var front := p[..|p| - |name|];
    assert p == front + name;
    assert p == (front + stem) + ['_'] + (tail + "." + ext);
    SplitOnAround(front + stem, '_', tail + "." + ext);
    SplitOnAbsent(tail + "." + ext, '_');
    assert Last(SplitOn(p, '_')) == tail + "." + ext;
    assert tail + "." + ext == tail + ['.'] + ext;
    SplitOnAround(tail, '.', ext);
    SplitOnAbsent(tail, '.');
    KeyTextIgnoresReplace(p);
  }

  /** Round trip: the sort key of the file written for chunk `i` is `i`, in
      every output directory. */
  lemma SortKeyOfChunkPath(dir: string, i: int)
    ensures SortKey(ChunkPath(dir, i)) == Some(i)
  {
    var digits := IntToString(i);
    assert '_' !in digits && '.' !in digits by {
      assert forall c | c in NatToString(if i < 0 then -i else i) :: IsDigit(c);
    }
    assert ChunkFileName(i) == "bark_generation" + "_" + digits + "." + "wav";
    KeyTextOfName(dir, "bark_generation", digits, "wav");
    ParseIntOfIntToString(i);
  }

  /** Different chunks are written to different files. */
  lemma ChunkPathInjective(dir: string, i: int, j: int)
    requires ChunkPath(dir, i) == ChunkPath(dir, j)
    ensures i == j
  {
    SortKeyOfChunkPath(dir, i);
    SortKeyOfChunkPath(dir, j);
  }

  /** The merged track's own file has no integer key: `int('audio')` raises. */
  lemma SortKeyOfCombinedAudio(dir: string)
    ensures SortKey(PathJoin(dir, "combined_audio.wav")) == None
  {
    assert "combined_audio.wav" == "combined" + "_" + "audio" + "." + "wav";
    KeyTextOfName(dir, "combined", "audio", "wav");
    ParseIntRejectsWord("audio");
  }

  /** `add_overlap`'s output has no integer key either: `int('overlapped')` raises. */
  lemma SortKeyOfOverlapOutput(dir: string, name: string)
    requires name != [] && name[0] != '/'
    ensures SortKey(PathJoin(dir, OverlapOutputPath(name))) == None
  {
    assert OverlapOutputPath(name) == name + "_" + "overlapped" + "." + "wav";
    KeyTextOfName(dir, name, "overlapped", "wav");
    ParseIntRejectsWord("overlapped");
  }

  // The candidate list of the merge.

  /** `[os.path.join(output_dir, f) for f in listing if f.endswith('.wav')]`. */
  function WavPaths(dir: string, listing: seq<string>): seq<string> {
    if listing == [] then []
    else
      (if EndsWith(listing[0], WAV) then [PathJoin(dir, listing[0])] else [])
      + WavPaths(dir, listing[1..])
  }

  /** `[f for f in paths if 'overlapped' not in f]`. */
  function WithoutOverlapped(paths: seq<string>): seq<string> {
    if paths == [] then []
    else
      (if Contains(paths[0], OVERLAPPED) then [] else [paths[0]])
      + WithoutOverlapped(paths[1..])
  }

  /** The files the merge considers, before sorting. */
  function MergeCandidates(dir: string, listing: seq<string>): seq<string> {
    WithoutOverlapped(WavPaths(dir, listing))
  }

  /** A path is a candidate exactly when it joins a listed `.wav` name and
      does not contain `overlapped`. */
  lemma MergeCandidatesMembers(dir: string, listing: seq<string>, p: string)
    ensures p in MergeCandidates(dir, listing) <==>
      !Contains(p, OVERLAPPED) && exists f | f in listing :: EndsWith(f, WAV) && p == PathJoin(dir, f)
  {
    WithoutOverlappedMembers(WavPaths(dir, listing), p);
    WavPathsMembers(dir, listing, p);
  }

  lemma {:induction false} WithoutOverlappedMembers(paths: seq<string>, p: string)
    ensures p in WithoutOverlapped(paths) <==> p in paths && !Contains(p, OVERLAPPED)
  {
    if paths != [] {
      WithoutOverlappedMembers(paths[1..], p);
      assert paths == [paths[0]] + paths[1..];
    }
  }

  lemma {:induction false} WavPathsMembers(dir: string, listing: seq<string>, p: string)
    ensures p in WavPaths(dir, listing) <==>
      exists f | f in listing :: EndsWith(f, WAV) && p == PathJoin(dir, f)
  {
    if listing != [] {
      WavPathsMembers(dir, listing[1..], p);
      assert listing == [listing[0]] + listing[1..];
      assert forall f | f in listing :: f == listing[0] || f in listing[1..];
    }
  }

  /** Every candidate ends with `.wav` and does not contain `overlapped`. */
  lemma MergeCandidatesAreWav(dir: string, listing: seq<string>, p: string)
    requires p in MergeCandidates(dir, listing)
    ensures EndsWith(p, WAV) && !Contains(p, OVERLAPPED)
  {
    MergeCandidatesMembers(dir, listing, p);
    var f :| f in listing && EndsWith(f, WAV) && p == PathJoin(dir, f);
    assert p[|p| - |WAV|..] == f[|f| - |WAV|..];
  }

  // Sorting by key.

  datatype Keyed = Keyed(path: string, key: int)

  /** The keys of `paths` under `key`, in order, or the first path whose key
      raises: the key computation that `sorted` performs before it orders. */
  function KeyAll(paths: seq<string>, key: string -> Option<int>): (r: Outcome<seq<Keyed>>)
    ensures r.Ok? <==> forall i | 0 <= i < |paths| :: key(paths[i]).Some?
    ensures r.Ok? ==> (|r.value| == |paths|
      && forall i | 0 <= i < |paths| :: r.value[i] == Keyed(paths[i], key(paths[i]).value))
    ensures r.ValueError? ==> r.path in paths && key(r.path) == None
  {
    if paths == [] then Ok([])
    else match key(paths[0])
      case None => ValueError(paths[0])
      case Some(k) =>
        match KeyAll(paths[1..], key)
        case ValueError(p) => ValueError(p)
        case Ok(rest) => Ok([Keyed(paths[0], k)] + rest)
  }

  predicate Sorted(s: seq<Keyed>) {
    forall i, j | 0 <= i < j < |s| :: s[i].key <= s[j].key
  }

  function Paths(s: seq<Keyed>): seq<string> {
    seq(|s|, i requires 0 <= i < |s| => s[i].path)
  }

  /** Insert `x` before the first element whose key is not smaller, so that
      `x` stays ahead of the equal keys that came after it in the input. */
  function Insert(x: Keyed, s: seq<Keyed>): seq<Keyed> {
    if s == [] then [x]
    else if x.key <= s[0].key then [x] + s
    else [s[0]] + Insert(x, s[1..])
  }

  /** `sorted(..., key=...)` on keyed paths: a stable insertion sort. */
  function SortByKey(s: seq<Keyed>): seq<Keyed> {
    if s == [] then [] else Insert(s[0], SortByKey(s[1..]))
  }

  lemma {:induction false} InsertPermutation(x: Keyed, s: seq<Keyed>)
    ensures multiset(Insert(x, s)) == multiset(s) + multiset{x}
  {
    if s != [] && x.key > s[0].key {
      InsertPermutation(x, s[1..]);
      assert s == [s[0]] + s[1..];
    }
  }

  lemma {:induction false} InsertSorted(x: Keyed, s: seq<Keyed>)
    requires Sorted(s)
    ensures Sorted(Insert(x, s))
  {
    if s == [] {
    } else if x.key <= s[0].key {
      var r := [x] + s;
      forall i, j | 0 <= i < j < |r| ensures r[i].key <= r[j].key {
        if i == 0 {
          assert r[j] == s[j - 1];
        } else {
          assert r[i] == s[i - 1] && r[j] == s[j - 1];
        }
      }
    } else {
      var t := Insert(x, s[1..]);
      InsertSorted(x, s[1..]);
      var r := [s[0]] + t;
      InsertBounded(x, s[1..], s[0].key);
      forall i, j | 0 <= i < j < |r| ensures r[i].key <= r[j].key {
        if i == 0 {
          assert r[j] == t[j - 1];
        } else {
          assert r[i] == t[i - 1] && r[j] == t[j - 1];
        }
      }
    }
  }

  lemma {:induction false} InsertBounded(x: Keyed, s: seq<Keyed>, low: int)
    requires x.key >= low && forall k | 0 <= k < |s| :: s[k].key >= low
    ensures forall k | 0 <= k < |Insert(x, s)| :: Insert(x, s)[k].key >= low
  {
    if s != [] && x.key > s[0].key {
      InsertBounded(x, s[1..], low);
      assert forall k | 1 <= k < |Insert(x, s)| :: Insert(x, s)[k] == Insert(x, s[1..])[k - 1];
    }
  }

  /** The sort orders by key and is a permutation of its input. */
  lemma {:induction false} SortByKeySorted(s: seq<Keyed>)
    ensures Sorted(SortByKey(s))
    ensures multiset(SortByKey(s)) == multiset(s)
  {
    if s != [] {
      SortByKeySorted(s[1..]);
      InsertSorted(s[0], SortByKey(s[1..]));
      InsertPermutation(s[0], SortByKey(s[1..]));
      assert s == [s[0]] + s[1..];
    }
  }

  /** Taking the last element of `a` out of both sides of a permutation. */
  lemma RemoveLast<T>(a: seq<T>, b: seq<T>, j: int)
    requires multiset(a) == multiset(b) && a != [] && 0 <= j < |b| && b[j] == a[|a| - 1]
    ensures multiset(a[..|a| - 1]) == multiset(b[..j] + b[j + 1..])
  {
    var x := a[|a| - 1];
    assert a == a[..|a| - 1] + [x];
    assert b == b[..j] + [x] + b[j + 1..];
    calc {
      multiset(a[..|a| - 1]);
      multiset(a) - multiset{x};
      multiset(b) - multiset{x};
      multiset(b[..j]) + multiset(b[j + 1..]);
      multiset(b[..j] + b[j + 1..]);
    }
  }

  lemma PathsAppend(a: seq<Keyed>, b: seq<Keyed>)
    ensures Paths(a + b) == Paths(a) + Paths(b)
  {
  }

  lemma {:induction false} PathsPermutation(a: seq<Keyed>, b: seq<Keyed>)
    requires multiset(a) == multiset(b)
    ensures multiset(Paths(a)) == multiset(Paths(b))
    decreases |a|
  {
    if a != [] {
      var x := a[|a| - 1];
      assert x in multiset(b);
      var j :| 0 <= j < |b| && b[j] == x;
      var a' := a[..|a| - 1];
      var b' := b[..j] + b[j + 1..];
      assert a == a' + [x];
      assert b == b[..j] + [x] + b[j + 1..];
      RemoveLast(a, b, j);
      PathsPermutation(a', b');
      PathsAppend(a', [x]);
      PathsAppend(b[..j] + [x], b[j + 1..]);
      PathsAppend(b[..j], [x]);
      PathsAppend(b[..j], b[j + 1..]);
      assert Paths([x]) == [x.path];
    } else {
      assert b == [];
    }
  }

  /** `sorted(audio_files, key=...)`: the candidates in the order of their
      keys, or the `ValueError` of the first candidate whose key is not an
      integer. */
  function MergeOrder(dir: string, listing: seq<string>): Outcome<seq<string>> {
    match KeyAll(MergeCandidates(dir, listing), SortKey)
    case ValueError(p) => ValueError(p)
    case Ok(keyed) => Ok(Paths(SortByKey(keyed)))
  }

  /** The merge fails exactly when some candidate has no integer key, and
      then it names such a candidate. */
  lemma MergeOrderFails(dir: string, listing: seq<string>)
    ensures var candidates := MergeCandidates(dir, listing);
      && (MergeOrder(dir, listing).ValueError? <==> exists p | p in candidates :: SortKey(p) == None)
      && (MergeOrder(dir, listing).ValueError? ==>
            MergeOrder(dir, listing).path in candidates && SortKey(MergeOrder(dir, listing).path) == None)
  {
  }

  /** Sorting keyed paths by any key function yields a permutation of the
      paths, each with a key, in ascending order of the keys. */
  lemma KeyedSortSortedPermutation(paths: seq<string>, key: string -> Option<int>)
    ensures KeyAll(paths, key).Ok? ==>
      var files := Paths(SortByKey(KeyAll(paths, key).value));
      && multiset(files) == multiset(paths)
      && (forall i | 0 <= i < |files| :: key(files[i]).Some?)
      && (forall i, j | 0 <= i < j < |files| :: key(files[i]).value <= key(files[j]).value)
  {
    if KeyAll(paths, key).ValueError? {
      return;
    }
    var keyed := KeyAll(paths, key).value;
    var sorted := SortByKey(keyed);
    var files := Paths(sorted);
    SortByKeySorted(keyed);
    PathsPermutation(sorted, keyed);
    assert Paths(keyed) == paths;
    forall i | 0 <= i < |files|
      ensures key(files[i]) == Some(sorted[i].key)
    {
      assert sorted[i] in multiset(keyed);
    }
  }

  /** On success the merge list is a permutation of the candidates, in
      ascending order of their keys. */
  lemma MergeOrderSortedPermutation(dir: string, listing: seq<string>, files: seq<string>)
    ensures MergeOrder(dir, listing) == Ok(files) ==>
      multiset(files) == multiset(MergeCandidates(dir, listing))
    ensures MergeOrder(dir, listing) == Ok(files) ==>
      forall i | 0 <= i < |files| :: SortKey(files[i]).Some?
    ensures MergeOrder(dir, listing) == Ok(files) ==>
      forall i, j | 0 <= i < j < |files| :: SortKey(files[i]).value <= SortKey(files[j]).value
  {
    KeyedSortSortedPermutation(MergeCandidates(dir, listing), SortKey);
  }

  /** A file name that `process_text_snippet` writes for some chunk. */
  ghost predicate IsChunkFile(f: string) {
    exists i :: f == ChunkFileName(i)
  }

  /** A file name that `add_overlap` writes next to some chunk file. */
  ghost predicate IsOverlapFile(f: string) {
    exists i :: f == OverlapOutputPath(ChunkFileName(i))
  }

  /** A listed name that survives the filter is a chunk file, and so has a
      key. */
  lemma ListedCandidateHasKey(dir: string, listing: seq<string>, f: string)
    requires f in listing && PathJoin(dir, f) in MergeCandidates(dir, listing)
    requires IsChunkFile(f) || IsOverlapFile(f)
    ensures IsChunkFile(f)
    ensures SortKey(PathJoin(dir, f)).Some?
  {
    if IsChunkFile(f) {
      var i :| f == ChunkFileName(i);
      SortKeyOfChunkPath(dir, i);
    } else {
      var i :| f == OverlapOutputPath(ChunkFileName(i));
      OverlapOutputsNotMerged(dir, ChunkFileName(i), listing);
      assert false;
    }
  }

  /** The directory that `main` merges holds the chunk files and the
      `_overlapped` files written next to them; such a directory always
      merges: the overlapped files are filtered out and every chunk file has
      an integer key. */
  lemma ChunkListingMerges(dir: string, listing: seq<string>)
    requires forall f | f in listing :: IsChunkFile(f) || IsOverlapFile(f)
    ensures MergeOrder(dir, listing).Ok?
  {
    var candidates := MergeCandidates(dir, listing);
    forall k | 0 <= k < |candidates|
      ensures SortKey(candidates[k]).Some?
    {
      var p := candidates[k];
      MergeCandidatesMembers(dir, listing, p);
      var f :| f in listing && EndsWith(f, WAV) && p == PathJoin(dir, f);
      ListedCandidateHasKey(dir, listing, f);
    }
  }

  /** Generated chunk files are merged in ascending order of chunk index. */
  lemma MergeFollowsChunkIndex(dir: string, listing: seq<string>, files: seq<string>)
    ensures MergeOrder(dir, listing) == Ok(files) ==>
      forall a, b, i, j | 0 <= a < b < |files| && files[a] == ChunkPath(dir, i)
        && files[b] == ChunkPath(dir, j) :: i <= j
  {
    if MergeOrder(dir, listing) != Ok(files) {
      return;
    }
    MergeOrderSortedPermutation(dir, listing, files);
    forall a, b, i, j | 0 <= a < b < |files| && files[a] == ChunkPath(dir, i)
        && files[b] == ChunkPath(dir, j)
      ensures i <= j
    {
      SortKeyOfChunkPath(dir, i);
      SortKeyOfChunkPath(dir, j);
    }
  }

  /** Only `.wav` files without `overlapped` in their path are merged. */
  lemma MergeOrderOnlyWav(dir: string, listing: seq<string>, files: seq<string>)
    ensures MergeOrder(dir, listing) == Ok(files) ==>
      forall p | p in files :: EndsWith(p, WAV) && !Contains(p, OVERLAPPED)
  {
    if MergeOrder(dir, listing) != Ok(files) {
      return;
    }
    MergeOrderSortedPermutation(dir, listing, files);
    forall p | p in files
      ensures EndsWith(p, WAV) && !Contains(p, OVERLAPPED)
    {
      assert p in multiset(files);
      MergeCandidatesAreWav(dir, listing, p);
    }
  }

  /** The files `add_overlap` writes never take part in the merge, whatever
      else the directory holds. */
  lemma OverlapOutputsNotMerged(dir: string, name: string, listing: seq<string>)
    ensures PathJoin(dir, OverlapOutputPath(name)) !in MergeCandidates(dir, listing)
  {
    var q := OverlapOutputPath(name);
    var p := PathJoin(dir, q);
    assert OccursAt(OVERLAP_SUFFIX, OVERLAPPED, 1);
    OccursInSuffix(q, OVERLAP_SUFFIX, OVERLAPPED, 1);
    OccursInSuffix(p, q, OVERLAPPED, |q| - |OVERLAP_SUFFIX| + 1);
    ContainsAt(p, OVERLAPPED);
    MergeCandidatesMembers(dir, listing, p);
  }

  // Combining the clips.

  /** The length of the track made by appending the clips in order. */
  function TotalDuration(files: seq<string>, duration: string -> nat): nat {
    if files == [] then 0
    else TotalDuration(files[..|files| - 1], duration) + duration(files[|files| - 1])
  }

  lemma {:induction false} TotalDurationAppend(a: seq<string>, b: seq<string>, duration: string -> nat)
    ensures TotalDuration(a + b, duration) == TotalDuration(a, duration) + TotalDuration(b, duration)
    decreases |b|
  {
    if b != [] {
      assert (a + b)[..|a + b| - 1] == a + b[..|b| - 1];
      TotalDurationAppend(a, b[..|b| - 1], duration);
    } else {
      assert a + b == a;
    }
  }

  /** The length of the merged track does not depend on the order of the clips. */
  lemma {:induction false} TotalDurationPermutation(a: seq<string>, b: seq<string>,
                                                   duration: string -> nat)
    requires multiset(a) == multiset(b)
    ensures TotalDuration(a, duration) == TotalDuration(b, duration)
    decreases |a|
  {
    if a != [] {
      var x := a[|a| - 1];
      assert x in multiset(b);
      var j :| 0 <= j < |b| && b[j] == x;
      var a' := a[..|a| - 1];
      var b' := b[..j] + b[j + 1..];
      assert a == a' + [x];
      assert b == b[..j] + [x] + b[j + 1..];
      RemoveLast(a, b, j);
      TotalDurationPermutation(a', b', duration);
      TotalDurationAppend(b[..j] + [x], b[j + 1..], duration);
      TotalDurationAppend(b[..j], [x], duration);
      TotalDurationAppend(b[..j], b[j + 1..], duration);
    } else {
      assert b == [];
    }
  }

  /** `merge_audio_files`: order the candidates, then append their clips one
      after another to an empty track. The result is the length of the
      combined track, or the `ValueError` of the sort key. */
  method MergeAudioFiles(dir: string, listing: seq<string>, duration: string -> nat)
    returns (r: Outcome<nat>)
    ensures MergeOrder(dir, listing).ValueError? ==> r == ValueError(MergeOrder(dir, listing).path)
    ensures MergeOrder(dir, listing).Ok? ==> r == Ok(TotalDuration(MergeOrder(dir, listing).value, duration))
  {
    var order := MergeOrder(dir, listing);
    if order.ValueError? {
      return ValueError(order.path);
    }
    var audioFiles := order.value;
    var combined: nat := 0;
    for i := 0 to |audioFiles|
      invariant combined == TotalDuration(audioFiles[..i], duration)
    {
      assert audioFiles[..i + 1][..i] == audioFiles[..i];
      combined := combined + duration(audioFiles[i]);
    }
    assert audioFiles[..|audioFiles|] == audioFiles;
    r := Ok(combined);
  }

  /** The merged track is as long as all candidate clips together. */
  lemma MergedDurationIsSumOfCandidates(dir: string, listing: seq<string>, files: seq<string>,
                                        duration: string -> nat)
    ensures MergeOrder(dir, listing) == Ok(files) ==>
      TotalDuration(files, duration) == TotalDuration(MergeCandidates(dir, listing), duration)
  {
    if MergeOrder(dir, listing) != Ok(files) {
      return;
    }
    MergeOrderSortedPermutation(dir, listing, files);
    TotalDurationPermutation(files, MergeCandidates(dir, listing), duration);
  }
}
