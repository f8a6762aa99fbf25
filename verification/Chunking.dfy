/** Splitting the collected files into batches for one model call each: `chunk_files`. */
module Chunking {

  datatype File = File(path: string, text: string)

  function Size(files: seq<File>): nat {
    if files == [] then 0 else Size(files[..|files| - 1]) + |files[|files| - 1].text|
  }

  function Flatten(batches: seq<seq<File>>): seq<File> {
    if batches == [] then [] else batches[0] + Flatten(batches[1..])
  }

  /** A batch that may be sent: within the budget, or a single file of any size. */
  predicate Sendable(batch: seq<File>, budget: int) {
    batch != [] && (|batch| == 1 || Size(batch) <= budget)
  }

  /** An order-preserving split of `files` into batches that may be sent. */
  ghost predicate IsSplit(batches: seq<seq<File>>, files: seq<File>, budget: int) {
    Flatten(batches) == files && forall i :: 0 <= i < |batches| ==> Sendable(batches[i], budget)
  }

  /** Batch `i` is closed only because the file after it would not have fitted. */
  predicate FullAt(batches: seq<seq<File>>, i: nat, budget: int)
    requires i + 1 < |batches|
  {
    batches[i + 1] != [] && Size(batches[i]) + |batches[i + 1][0].text| > budget
  }

  /** Every batch but the last is as long as it can be. */
  ghost predicate IsGreedy(batches: seq<seq<File>>, budget: int) {
    forall i: nat :: i + 1 < |batches| ==> FullAt(batches, i, budget)
  }

  lemma {:induction false} FlattenSnoc(batches: seq<seq<File>>, b: seq<File>)
    ensures Flatten(batches + [b]) == Flatten(batches) + b
  {
    if batches == [] {
      assert [] + [b] == [b];
    } else {
      assert (batches + [b])[1..] == batches[1..] + [b];
      FlattenSnoc(batches[1..], b);
    }
  }

  /** `batches` are closed and `current` is being filled. */
  ghost predicate Filling(batches: seq<seq<File>>, current: seq<File>, files: seq<File>, budget: int) {
    && Flatten(batches) + current == files
    && (files != [] ==> Sendable(current, budget))
    && (forall k :: 0 <= k < |batches| ==> Sendable(batches[k], budget))
    && (batches != [] ==> current != [])
    && IsGreedy(batches + [current], budget)
  }

  lemma Extend(batches: seq<seq<File>>, current: seq<File>, files: seq<File>, file: File, budget: int)
    requires Filling(batches, current, files, budget)
    requires current == [] || Size(current) + |file.text| <= budget
    ensures Filling(batches, current + [file], files + [file], budget)
    ensures Size(current + [file]) == Size(current) + |file.text|
  {
    var before, after := batches + [current], batches + [current + [file]];
    SizeOne(current, file);
    forall i: nat | i + 1 < |after|
      ensures FullAt(after, i, budget)
    {
      assert FullAt(before, i, budget);
    }
  }

  lemma Close(batches: seq<seq<File>>, current: seq<File>, files: seq<File>, file: File, budget: int)
    requires Filling(batches, current, files, budget)
    requires current != [] && Size(current) + |file.text| > budget
    ensures Filling(batches + [current], [file], files + [file], budget)
  {
    var before, after := batches + [current], batches + [current] + [[file]];
    FlattenSnoc(batches, current);
    forall i: nat | i + 1 < |after|
      ensures FullAt(after, i, budget)
    {
      assert i + 1 < |before| ==> FullAt(before, i, budget);
    }
  }

  method ChunkFiles(files: seq<File>, budget: int) returns (batches: seq<seq<File>>)
    ensures IsSplit(batches, files, budget) && IsGreedy(batches, budget)
  {
    batches := [];
    var current: seq<File>, size := [], 0;
    for i := 0 to |files|
      invariant Filling(batches, current, files[..i], budget) && size == Size(current)
    {
      var file := files[i];
      assert files[..i + 1] == files[..i] + [file];
      if current != [] && size + |file.text| > budget {
        Close(batches, current, files[..i], file, budget);
        batches := batches + [current];
        current, size := [], 0;
        SizeOne([], file);
        assert [] + [file] == [file];
      } else {
        Extend(batches, current, files[..i], file, budget);
      }
      current := current + [file];
      size := size + |file.text|;
    }
    assert files[..|files|] == files;
    if current != [] {
      FlattenSnoc(batches, current);
      batches := batches + [current];
    }
  }

  // ----- no split uses fewer batches

  lemma {:induction false} SizePrefix(files: seq<File>, k: nat)
    requires k <= |files|
    ensures Size(files[..k]) <= Size(files)
  {
    if k < |files| {
      SizePrefix(files[..|files| - 1], k);
      assert files[..|files| - 1][..k] == files[..k];
    } else {
      assert files[..k] == files;
    }
  }

  lemma {:induction false} SizeSuffix(files: seq<File>, k: nat)
    requires k <= |files|
    ensures Size(files[k..]) <= Size(files)
  {
    if k < |files| {
      SizeSuffix(files[..|files| - 1], k);
      assert files[k..][..|files[k..]| - 1] == files[..|files| - 1][k..];
    }
  }

  /** Part of a batch that may be sent may be sent. */
  lemma PartSendable(batch: seq<File>, from: nat, to: nat, budget: int)
    requires Sendable(batch, budget) && from < to <= |batch|
    ensures Sendable(batch[from..to], budget)
  {
    SizePrefix(batch, to);
    SizeSuffix(batch[..to], from);
    assert batch[..to][from..] == batch[from..to];
  }

  lemma SizeOne(batch: seq<File>, next: File)
    ensures Size(batch + [next]) == Size(batch) + |next.text|
  {
    assert (batch + [next])[..|batch|] == batch;
  }

  /** Greedy stays ahead: from any later position, a greedy split needs no more batches than
      any split of the whole. */
  lemma {:induction false} GreedyStaysAhead(
    greedy: seq<seq<File>>, other: seq<seq<File>>, files: seq<File>, skipped: nat, budget: int)
    requires skipped <= |files|
    requires IsSplit(other, files, budget)
    requires IsSplit(greedy, files[skipped..], budget) && IsGreedy(greedy, budget)
    ensures |greedy| <= |other|
    decreases |other|
  {
    if greedy != [] {
      assert files[skipped..] == greedy[0] + Flatten(greedy[1..]);
      var b := other[0];
      assert files == b + Flatten(other[1..]);
      var rest := files[|b|..];
      assert rest == Flatten(other[1..]);
      if skipped >= |b| {
        assert rest[skipped - |b|..] == files[skipped..];
        GreedyStaysAhead(greedy, other[1..], rest, skipped - |b|, budget);
      } else {
        FirstBatchCovers(greedy, files, skipped, b, budget);
        var after := skipped + |greedy[0]| - |b|;
        assert rest[after..] == files[skipped..][|greedy[0]|..] == Flatten(greedy[1..]);
        GreedyTail(greedy, budget);
        GreedyStaysAhead(greedy[1..], other[1..], rest, after, budget);
      }
    }
  }

  lemma GreedyTail(greedy: seq<seq<File>>, budget: int)
    requires greedy != [] && IsGreedy(greedy, budget)
    ensures IsGreedy(greedy[1..], budget)
  {
    var rest := greedy[1..];
    forall i: nat | i + 1 < |rest|
      ensures FullAt(rest, i, budget)
    {
      assert FullAt(greedy, i + 1, budget);
    }
  }

  /** The first greedy batch from a position inside a sendable batch `b` reaches the end of `b`. */
  lemma FirstBatchCovers(greedy: seq<seq<File>>, files: seq<File>, skipped: nat, b: seq<File>, budget: int)
    requires b <= files && skipped < |b| && Sendable(b, budget)
    requires greedy != [] && IsSplit(greedy, files[skipped..], budget) && IsGreedy(greedy, budget)
    ensures skipped + |greedy[0]| >= |b|
  {
    var first := greedy[0];
    assert files[skipped..] == first + Flatten(greedy[1..]);
    if skipped + |first| < |b| {
      var next := files[skipped + |first|];
      assert Flatten(greedy[1..])[0] == next;
      assert Flatten(greedy[1..]) == greedy[1] + Flatten(greedy[1..][1..]);
      assert FullAt(greedy, 0, budget);
      assert greedy[1][0] == next;
      assert b[skipped..skipped + |first| + 1] == first + [next];
      SizeOne(first, next);
      PartSendable(b, skipped, skipped + |first| + 1, budget);
    }
  }

  /** No order-preserving split into sendable batches has fewer batches than a greedy one,
      which is what `ChunkFiles` returns. */
  lemma GreedyIsOptimal(greedy: seq<seq<File>>, other: seq<seq<File>>, files: seq<File>, budget: int)
    requires IsSplit(greedy, files, budget) && IsGreedy(greedy, budget) && IsSplit(other, files, budget)
    ensures |greedy| <= |other|
  {
    assert files[0..] == files;
    GreedyStaysAhead(greedy, other, files, 0, budget);
  }

  lemma NoFilesNoBatches(batches: seq<seq<File>>, files: seq<File>, budget: int)
    requires IsSplit(batches, files, budget)
    ensures batches == [] <==> files == []
  {
    if batches != [] {
      assert Sendable(batches[0], budget);
      assert files == batches[0] + Flatten(batches[1..]);
    }
  }

  /** A greedy split is determined by the files and the budget. */
  lemma {:induction false} GreedyIsUnique(a: seq<seq<File>>, b: seq<seq<File>>, files: seq<File>, budget: int)
    requires IsSplit(a, files, budget) && IsGreedy(a, budget) && IsSplit(b, files, budget) && IsGreedy(b, budget)
    ensures a == b
    decreases |a|
  {
    NoFilesNoBatches(a, files, budget);
    NoFilesNoBatches(b, files, budget);
    if a != [] {
      assert files == a[0] + Flatten(a[1..]) && a[0] != [];
      assert files == b[0] + Flatten(b[1..]);
      assert files[0..] == files;
      FirstBatchCovers(a, files, 0, b[0], budget);
      FirstBatchCovers(b, files, 0, a[0], budget);
      assert a[0] == files[..|a[0]|] == b[0];
      assert Flatten(a[1..]) == files[|a[0]|..] == Flatten(b[1..]);
      GreedyTail(a, budget);
      GreedyTail(b, budget);
      GreedyIsUnique(a[1..], b[1..], files[|a[0]|..], budget);
    }
  }

  function Joined(files: seq<File>): string {
    if files == [] then "" else Joined(files[..|files| - 1]) + files[|files| - 1].text
  }

  /** What is held against the budget is the text of the files put together, not their names. */
  lemma {:induction false} SizeIsText(files: seq<File>)
    ensures Size(files) == |Joined(files)|
  {
    if files != [] {
      SizeIsText(files[..|files| - 1]);
    }
  }
}
