/** Batching files for the parser under a limit on files and a limit on bytes. */
module Batching {

  const MAX_FILES_PER_BATCH: nat := 50
  const MAX_BYTES_PER_BATCH: nat := 5 * 1024 * 1024

  datatype FileInput = FileInput(filePath: string, content: string, language: string)

  function Bytes(files: seq<FileInput>): nat {
    if files == [] then 0 else Bytes(files[..|files| - 1]) + |files[|files| - 1].content|
  }

  predicate WithinLimits(batch: seq<FileInput>) {
    |batch| <= MAX_FILES_PER_BATCH && Bytes(batch) <= MAX_BYTES_PER_BATCH
  }

  /** A batch is never empty, and only a single file may exceed the byte limit. */
  predicate ValidBatch(batch: seq<FileInput>) {
    batch != [] && (WithinLimits(batch) || |batch| == 1)
  }

  function Concat(batches: seq<seq<FileInput>>): seq<FileInput> {
    if batches == [] then [] else Concat(batches[..|batches| - 1]) + batches[|batches| - 1]
  }

  /** An order-preserving split of the files into valid batches. */
  ghost predicate ValidSplit(batches: seq<seq<FileInput>>, files: seq<FileInput>) {
    Concat(batches) == files && forall i :: 0 <= i < |batches| ==> ValidBatch(batches[i])
  }

  // ----- The greedy loop as a function of the files seen

  datatype Progress = Progress(batches: seq<seq<FileInput>>, current: seq<FileInput>)

  /** The current batch is full for the next file. */
  predicate MustFlush(current: seq<FileInput>, f: FileInput) {
    current != [] && (|current| >= MAX_FILES_PER_BATCH || Bytes(current) + |f.content| > MAX_BYTES_PER_BATCH)
  }

  function Greedy(files: seq<FileInput>): Progress {
    if files == [] then Progress([], [])
    else
      var n := |files| - 1;
      var p := Greedy(files[..n]);
      if MustFlush(p.current, files[n]) then Progress(p.batches + [p.current], [files[n]])
      else Progress(p.batches, p.current + [files[n]])
  }

  function Finish(p: Progress): seq<seq<FileInput>> {
    if p.current == [] then p.batches else p.batches + [p.current]
  }

  method BatchFileInputs(files: seq<FileInput>) returns (batches: seq<seq<FileInput>>)
    ensures batches == Finish(Greedy(files))
    ensures ValidSplit(batches, files)
    ensures forall other :: ValidSplit(other, files) ==> |batches| <= |other|
  {
    batches := [];
    var current: seq<FileInput> := [];
    var currentBytes := 0;
    for i := 0 to |files|
      invariant Progress(batches, current) == Greedy(files[..i])
      invariant currentBytes == Bytes(current)
    {
      var f := files[i];
      assert files[..i + 1][..i] == files[..i];
      BytesAppend(current, f);
      BytesAppend([], f);
      assert [] + [f] == [f];
      if |current| > 0 && (|current| >= MAX_FILES_PER_BATCH || currentBytes + |f.content| > MAX_BYTES_PER_BATCH) {
        batches := batches + [current];
        current := [];
        currentBytes := 0;
      }
      current := current + [f];
      currentBytes := currentBytes + |f.content|;
    }
    assert files[..|files|] == files;
    if |current| > 0 {
      batches := batches + [current];
    }
    GreedySplits(files);
    forall other | ValidSplit(other, files)
      ensures |batches| <= |other|
    {
      GreedyIsOptimal(files, other);
    }
  }

  lemma BytesAppend(files: seq<FileInput>, f: FileInput)
    ensures Bytes(files + [f]) == Bytes(files) + |f.content|
  {
    assert (files + [f])[..|files|] == files;
  }

  lemma ConcatAppend(batches: seq<seq<FileInput>>, b: seq<FileInput>)
    ensures Concat(batches + [b]) == Concat(batches) + b
  {
    assert (batches + [b])[..|batches|] == batches;
  }

  /** The contents of the files one after the other. */
  function AllContent(files: seq<FileInput>): string {
    if files == [] then "" else files[0].content + AllContent(files[1..])
  }

  lemma {:induction false} BytesIsLength(files: seq<FileInput>)
    ensures Bytes(files) == |AllContent(files)|
    decreases |files|
  {
    if files != [] {
      BytesIsLength(files[1..]);
      BytesOfFirst(files);
    }
  }

  lemma {:induction false} BytesOfFirst(files: seq<FileInput>)
    requires files != []
    ensures Bytes(files) == |files[0].content| + Bytes(files[1..])
    decreases |files|
  {
    var n := |files| - 1;
    if n > 0 {
      BytesOfFirst(files[..n]);
      assert files[..n][1..] == files[1..][..n - 1];
    } else {
      assert files[..0] == [];
    }
  }

  /** The limits: 50 files and 5 MB of content, or a single file of any size. */
  lemma ValidBatchMeaning(batch: seq<FileInput>)
    ensures ValidBatch(batch) <==> |batch| == 1 || (1 < |batch| <= 50 && |AllContent(batch)| <= 5242880)
  {
    BytesIsLength(batch);
  }

  // ----- Soundness

  ghost predicate AllValid(batches: seq<seq<FileInput>>) {
    forall i :: 0 <= i < |batches| ==> ValidBatch(batches[i])
  }

  /** What the loop keeps: full batches so far, and a batch in progress that is itself valid. */
  ghost predicate Sound(p: Progress, files: seq<FileInput>) {
    && AllValid(p.batches)
    && Concat(p.batches) + p.current == files
    && (p.current == [] ==> files == [])
    && (p.current != [] ==> ValidBatch(p.current))
  }

  lemma FlushSound(p: Progress, files: seq<FileInput>, f: FileInput)
    requires Sound(p, files) && p.current != []
    ensures Sound(Progress(p.batches + [p.current], [f]), files + [f])
  {
    ConcatAppend(p.batches, p.current);
    assert Concat(p.batches) + p.current + [f] == files + [f];
  }

  lemma ExtendSound(p: Progress, files: seq<FileInput>, f: FileInput)
    requires Sound(p, files) && !MustFlush(p.current, f)
    ensures Sound(Progress(p.batches, p.current + [f]), files + [f])
  {
    BytesAppend(p.current, f);
    assert Concat(p.batches) + (p.current + [f]) == Concat(p.batches) + p.current + [f];
  }

  lemma {:induction false} GreedySound(files: seq<FileInput>)
    ensures Sound(Greedy(files), files)
  {
    if files == [] {
      assert Concat([]) + [] == [];
    } else {
      var n := |files| - 1;
      GreedySound(files[..n]);
      var q := Greedy(files[..n]);
      assert MustFlush(q.current, files[n]) ==> q.current != [];
      hide Sound, MustFlush;
      assert files == files[..n] + [files[n]];
      if MustFlush(q.current, files[n]) {
        FlushSound(q, files[..n], files[n]);
      } else {
        ExtendSound(q, files[..n], files[n]);
      }
    }
  }

  lemma GreedySplits(files: seq<FileInput>)
    ensures ValidSplit(Finish(Greedy(files)), files)
  {
    hide Greedy;
    var p := Greedy(files);
    GreedySound(files);
    ConcatAppend(p.batches, p.current);
    assert p.current == [] ==> Concat(p.batches) + p.current == Concat(p.batches);
  }

  // ----- Optimality

  function Used(p: Progress): nat {
    |Finish(p)|
  }

  lemma {:induction false} BytesMonotone(files: seq<FileInput>, i: nat, j: nat)
    requires i <= j <= |files|
    ensures Bytes(files[i..j]) <= Bytes(files)
    decreases |files|
  {
    if i < j {
      var n := |files| - 1;
      if j == |files| {
        var part := files[i..j];
        assert part[..|part| - 1] == files[i..n] == files[..n][i..n];
        BytesMonotone(files[..n], i, n);
      } else {
        assert files[i..j] == files[..n][i..j];
        BytesMonotone(files[..n], i, j);
      }
    }
  }

  /** After `n` files the batch in progress starts with the `m`-th. */
  ghost predicate StartsAt(files: seq<FileInput>, m: nat, n: nat)
    requires n <= |files|
  {
    m < n && Greedy(files[..n]).current == files[m..n]
  }

  /** The batch in progress consists of files from `k` on. */
  ghost predicate CurrentFrom(files: seq<FileInput>, k: nat, n: nat)
    requires n <= |files|
  {
    exists m :: k <= m && StartsAt(files, m, n)
  }

  lemma GreedyStep(files: seq<FileInput>, n: nat)
    requires 0 < n <= |files|
    ensures var p, q, f := Greedy(files[..n]), Greedy(files[..n - 1]), files[n - 1];
            p == if MustFlush(q.current, f) then Progress(q.batches + [q.current], [f]) else Progress(q.batches, q.current + [f])
  {
    assert files[..n][..n - 1] == files[..n - 1];
  }

  /** A run of files inside a valid batch never forces a flush. */
  lemma NoFlushInside(files: seq<FileInput>, k: nat, m: nat, n: nat)
    requires k <= m < n < |files| && ValidBatch(files[k..n + 1])
    ensures !MustFlush(files[m..n], files[n])
  {
    var whole, part := files[k..n + 1], files[m..n + 1];
    assert part == whole[m - k..n + 1 - k];
    BytesMonotone(whole, m - k, n + 1 - k);
    assert part == files[m..n] + [files[n]];
    BytesAppend(files[m..n], files[n]);
  }

  lemma SubBatchValid(files: seq<FileInput>, k: nat, n: nat)
    requires k + 1 < n <= |files| && ValidBatch(files[k..n])
    ensures ValidBatch(files[k..n - 1])
  {
    assert files[k..n - 1] == files[k..n][0..n - 1 - k];
    BytesMonotone(files[k..n], 0, n - 1 - k);
  }

  /** The next file starts a batch of its own, which costs one batch. */
  lemma FileStartsBatch(files: seq<FileInput>, n: nat)
    requires 0 < n <= |files|
    requires var q := Greedy(files[..n - 1]); q.current == [] || MustFlush(q.current, files[n - 1])
    ensures Used(Greedy(files[..n])) == Used(Greedy(files[..n - 1])) + 1 && StartsAt(files, n - 1, n)
  {
    GreedyStep(files, n);
    hide Greedy, Bytes;
    assert files[n - 1..n] == [files[n - 1]];
  }

  /** The next file joins the batch in progress, which costs nothing. */
  lemma FileJoinsBatch(files: seq<FileInput>, n: nat)
    requires 0 < n <= |files|
    requires var q := Greedy(files[..n - 1]); q.current != [] && !MustFlush(q.current, files[n - 1])
    ensures Used(Greedy(files[..n])) == Used(Greedy(files[..n - 1]))
    ensures Greedy(files[..n]).current == Greedy(files[..n - 1]).current + [files[n - 1]]
  {
    GreedyStep(files, n);
    hide Greedy, MustFlush;
  }

  lemma StartKept(files: seq<FileInput>, m: nat, n: nat)
    requires m < n - 1 < |files| && StartsAt(files, m, n - 1)
    requires Greedy(files[..n]).current == Greedy(files[..n - 1]).current + [files[n - 1]]
    ensures StartsAt(files, m, n)
  {
    hide Greedy;
    assert files[m..n] == files[m..n - 1] + [files[n - 1]];
  }

  /** A batch that started inside a valid batch takes the rest of it. */
  lemma NoFlushSince(files: seq<FileInput>, k: nat, m: nat, n: nat)
    requires k <= m < n < |files| && StartsAt(files, m, n) && ValidBatch(files[k..n + 1])
    ensures var q := Greedy(files[..n]); q.current != [] && !MustFlush(q.current, files[n])
  {
    hide Greedy, ValidBatch, MustFlush;
    NoFlushInside(files, k, m, n);
  }

  /** Adding files that fit one valid batch costs the greedy loop at most one more batch: after
      the first flush among them, everything since then still fits. */
  lemma {:induction false} OneMoreBatch(files: seq<FileInput>, k: nat, n: nat)
    requires k < n <= |files| && ValidBatch(files[k..n])
    ensures Used(Greedy(files[..n])) <= Used(Greedy(files[..k])) + 1
    ensures Used(Greedy(files[..n])) > Used(Greedy(files[..k])) ==> CurrentFrom(files, k, n)
    decreases n
  {
    hide Greedy, Used, ValidBatch, MustFlush, StartsAt;
    var q := Greedy(files[..n - 1]);
    if k + 1 < n {
      SubBatchValid(files, k, n);
      OneMoreBatch(files, k, n - 1);
    }
    if k + 1 < n && Used(q) > Used(Greedy(files[..k])) {
      var m :| k <= m && StartsAt(files, m, n - 1);
      StartsBelow(files, m, n - 1);
      NoFlushSince(files, k, m, n - 1);
      FileJoinsBatch(files, n);
      StartKept(files, m, n);
    } else if q.current == [] || MustFlush(q.current, files[n - 1]) {
      FileStartsBatch(files, n);
    } else {
      FileJoinsBatch(files, n);
    }
  }

  lemma StartsBelow(files: seq<FileInput>, m: nat, n: nat)
    requires n <= |files| && StartsAt(files, m, n)
    ensures m < n
  {
  }

  /** No order-preserving split within the limits has fewer batches. */
  lemma {:induction false} GreedyIsOptimal(files: seq<FileInput>, other: seq<seq<FileInput>>)
    requires ValidSplit(other, files)
    ensures Used(Greedy(files)) <= |other|
    decreases |other|
  {
    if other != [] {
      var m := |other| - 1;
      var last, rest := other[m], other[..m];
      var k, n := |files| - |last|, |files|;
      assert files == Concat(rest) + last;
      assert files[..k] == Concat(rest) && files[k..n] == last && files[..n] == files;
      hide Greedy;
      GreedyIsOptimal(files[..k], rest);
      OneMoreBatch(files, k, n);
    }
  }
}
