/** The inference runner's output loop: batches come back from the model's
    inference op until the stream ends, and every row of every batch becomes
    one segmented line of the transcript. */
module Inference {
  import opened PyBuiltins
  import opened Segmentation

  /** One batch from the inference op: padded character rows, their decoded
      tag rows, and the valid length of each row. */
  datatype InferBatch = InferBatch(textRaw: seq<seq<char>>, decodedTags: seq<seq<int>>, seqLens: seq<nat>)

  /** The two assertions the runner makes on every batch. */
  predicate Consistent(b: InferBatch) {
    |b.textRaw| == |b.decodedTags| && |b.seqLens| == |b.decodedTags|
  }

  /** The line written for row `j` of a consistent batch. */
  function RowLine(b: InferBatch, j: nat): string
    requires Consistent(b) && j < |b.textRaw|
  {
    Reconstruct(b.textRaw[j], b.decodedTags[j], b.seqLens[j])
  }

  /** The lines written for the first `j` rows of a consistent batch. */
  function LinesUpTo(b: InferBatch, j: nat): (lines: seq<string>)
    requires Consistent(b) && j <= |b.textRaw|
    ensures |lines| == j
  {
    if j == 0 then [] else LinesUpTo(b, j - 1) + [RowLine(b, j - 1)]
  }

  /** The lines written for one consistent batch, row by row. */
  function BatchLines(b: InferBatch): (lines: seq<string>)
    requires Consistent(b)
    ensures |lines| == |b.textRaw|
  {
    LinesUpTo(b, |b.textRaw|)
  }

  /** Row `j` of a batch becomes line `j` of its lines. */
  lemma {:induction false} BatchLinesAt(b: InferBatch, j: nat, n: nat)
    requires Consistent(b) && j < n <= |b.textRaw|
    ensures LinesUpTo(b, n)[j] == Reconstruct(b.textRaw[j], b.decodedTags[j], b.seqLens[j])
  {
    assert LinesUpTo(b, n) == LinesUpTo(b, n - 1) + [RowLine(b, n - 1)];
    if j < n - 1 {
      BatchLinesAt(b, j, n - 1);
    }
  }

  /** The lines written for a stream of batches, and whether the run ended
      with the stream or with a failed assertion. */
  function Transcript(batches: seq<InferBatch>): Log<string>
  {
    if batches == [] then Finished([])
    else if !Consistent(batches[0]) then Raised([], AssertionError)
    else Transcript(batches[1..]).Prepend(BatchLines(batches[0]))
  }

  /** Total number of rows in a stream of batches. */
  function Rows(batches: seq<InferBatch>): nat
  {
    if batches == [] then 0 else |batches[0].textRaw| + Rows(batches[1..])
  }

  /** The inner loop of the inference runner: one line written per row of
      a batch that passed both assertions. */
  method WriteBatch(b: InferBatch, written: seq<string>) returns (written': seq<string>)
    requires Consistent(b)
    ensures written' == written + BatchLines(b)
  {
    written' := written;
    var j := 0;
    while j < |b.textRaw|
      invariant 0 <= j <= |b.textRaw|
      invariant written' == written + LinesUpTo(b, j)
    {
      var line := ReconstructLine(b.textRaw[j], b.decodedTags[j], b.seqLens[j]);
      written' := written' + [line];
      j := j + 1;
    }
  }

  /** The output loop of the inference runner. Reaching the end of `batches`
      stands for the inference op's end-of-stream signal; the transcript is
      the sequence of lines written, each followed by a newline in the file. */
  method RunInference(batches: seq<InferBatch>) returns (r: Log<string>)
    ensures r == Transcript(batches)
  {
    var written: seq<string> := [];
    var i := 0;
    while i < |batches|
      invariant 0 <= i <= |batches|
      invariant Transcript(batches) == Transcript(batches[i..]).Prepend(written)
    {
      var b := batches[i];
      assert batches[i..][1..] == batches[i + 1..];
      if |b.textRaw| != |b.decodedTags| || |b.seqLens| != |b.decodedTags| {
        return Raised(written, AssertionError);
      }
      Transcript(batches[i + 1..]).PrependTwice(written, BatchLines(b));
      written := WriteBatch(b, written);
      i := i + 1;
    }
    assert written + [] == written;
    r := Finished(written);
  }

  /** A stream whose batches all pass both assertions is transcribed to the
      end, one line per row. */
  lemma {:induction false} TranscriptFinishes(batches: seq<InferBatch>)
    requires forall i :: 0 <= i < |batches| ==> Consistent(batches[i])
    ensures Transcript(batches).Finished?
    ensures |Transcript(batches).items| == Rows(batches)
  {
    if batches != [] {
      TranscriptFinishes(batches[1..]);
    }
  }

  /** The first batch that fails an assertion stops the run with an
      AssertionError, after the lines of every batch before it have been
      written and before any line of its own: rows are never silently
      dropped or truncated. */
  lemma {:induction false} TranscriptAborts(batches: seq<InferBatch>, i: nat)
    requires i < |batches| && !Consistent(batches[i])
    requires forall j :: 0 <= j < i ==> Consistent(batches[j])
    ensures Transcript(batches[..i]).Finished?
    ensures Transcript(batches) == Raised(Transcript(batches[..i]).items, AssertionError)
  {
    if i > 0 {
      assert batches[1..][..i - 1] == batches[..i][1..];
      TranscriptAborts(batches[1..], i - 1);
      assert batches[..i][0] == batches[0];
    } else {
      assert batches[..0] == [];
    }
  }

  /** Batches are transcribed in the order they arrive: once a stream has
      passed every assertion, whatever comes after it is written after its
      lines. */
  lemma {:induction false} TranscriptInOrder(first: seq<InferBatch>, rest: seq<InferBatch>)
    requires forall i :: 0 <= i < |first| ==> Consistent(first[i])
    ensures Transcript(first + rest) == Transcript(rest).Prepend(Transcript(first).items)
  {
    if first == [] {
      assert first + rest == rest;
    } else {
      assert (first + rest)[1..] == first[1..] + rest;
      TranscriptInOrder(first[1..], rest);
      Transcript(rest).PrependTwice(BatchLines(first[0]), Transcript(first[1..]).items);
    }
  }
}
