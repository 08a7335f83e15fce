/** The evaluation pass: per-batch counts are summed until the evaluation
    stream ends, and precision is the share of characters tagged right. */
module Evaluation {
  import opened PyBuiltins

  /** What one call of the evaluation op returns: characters seen, characters
      tagged right, and lines in the batch. */
  datatype EvalBatch = EvalBatch(charCnt: nat, rightCnt: nat, lineCnt: nat)

  datatype Totals = Totals(chars: nat, right: nat, lines: nat)

  /** An exact fraction `num / den`, standing for Python's true division. */
  datatype Ratio = Ratio(num: int, den: int)

  /** What the pass reports: the precision and the number of lines seen. */
  datatype EvalReport = EvalReport(precision: Ratio, totalLine: nat)

  function Plus(t: Totals, b: EvalBatch): Totals {
    Totals(t.chars + b.charCnt, t.right + b.rightCnt, t.lines + b.lineCnt)
  }

  /** The three counts summed over a stream of batches, starting from zero. */
  function Sum(batches: seq<EvalBatch>): Totals {
    if batches == [] then Totals(0, 0, 0) else Plus(Sum(batches[..|batches| - 1]), batches[|batches| - 1])
  }

  /** The accumulator loop of the evaluation pass and the precision computed
      after it. Reaching the end of `batches` stands for the evaluation op's
      end-of-stream signal. With no characters seen the division raises. */
  method Evaluate(batches: seq<EvalBatch>) returns (r: Result<EvalReport>)
    ensures r.Err? <==> Sum(batches).chars == 0
    ensures r.Err? ==> r.error == ZeroDivisionError
    ensures r.Ok? ==> r.value == EvalReport(Ratio(Sum(batches).right, Sum(batches).chars), Sum(batches).lines)
  {
    var totalCharCnt: nat, totalRightCnt: nat, totalLine: nat := 0, 0, 0;
    var i := 0;
    while i < |batches|
      invariant 0 <= i <= |batches|
      invariant Totals(totalCharCnt, totalRightCnt, totalLine) == Sum(batches[..i])
    {
      var b := batches[i];
      assert batches[..i + 1][..i] == batches[..i];
      totalCharCnt := totalCharCnt + b.charCnt;
      totalRightCnt := totalRightCnt + b.rightCnt;
      totalLine := totalLine + b.lineCnt;
      i := i + 1;
    }
    assert batches[..i] == batches;
    if totalCharCnt == 0 {
      return Err(ZeroDivisionError);
    }
    r := Ok(EvalReport(Ratio(totalRightCnt, totalCharCnt), totalLine));
  }

  /** Summing is additive over the stream: the totals of two streams one
      after the other are the sums of their totals. */
  lemma {:induction false} SumAppend(first: seq<EvalBatch>, rest: seq<EvalBatch>)
    ensures Sum(first + rest).chars == Sum(first).chars + Sum(rest).chars
    ensures Sum(first + rest).right == Sum(first).right + Sum(rest).right
    ensures Sum(first + rest).lines == Sum(first).lines + Sum(rest).lines
    decreases |rest|
  {
    if rest == [] {
      assert first + rest == first;
    } else {
      var all := first + rest;
      assert all[..|all| - 1] == first + rest[..|rest| - 1];
      SumAppend(first, rest[..|rest| - 1]);
    }
  }

  /** When no batch reports more right characters than characters, the
      precision lies between 0 and 1. */
  lemma {:induction false} PrecisionAtMostOne(batches: seq<EvalBatch>)
    requires forall i :: 0 <= i < |batches| ==> batches[i].rightCnt <= batches[i].charCnt
    ensures Sum(batches).right <= Sum(batches).chars
  {
    if batches != [] {
      PrecisionAtMostOne(batches[..|batches| - 1]);
    }
  }
}
