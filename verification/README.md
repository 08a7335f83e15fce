# Chinese word segmentation driver: a Dafny model

The repository trains and runs a sequence-labelling model that segments
Chinese text by tagging every character S (a one-character word), B (the
first character of a word), M (a middle character) or E (the last
character). `sycws/main_body.py` is the driver around that model. The
model itself lives in an external library. This project models the parts
of the driver that compute something:

- **Reconstructor** (`segmentation.dfy`, module `Segmentation`). Inference
  returns character rows, tag rows and valid lengths. For each row the
  driver cuts characters and tags to the valid length, appends every
  character to a running line, puts a space before it when its tag is S
  or B, and strips the line. `ReconstructLine` is that loop. `Reconstruct`
  is the function it is proved against. The lemmas show what the line
  means: its words (`Words`) joined by single spaces, with every
  character kept in order.
- **Inference output loop** (`inference.dfy`, module `Inference`). Batches
  arrive until the stream ends. Each batch must have as many text rows as
  tag rows and lengths, or an assertion aborts the run. Each row becomes
  one line of the transcript.
- **Evaluation accumulator** (`evaluation.dfy`, module `Evaluation`). It
  sums per-batch character, right-character and line counts until the
  stream ends. Precision is right / characters as an exact fraction. With
  no characters the division raises `ZeroDivisionError`, because nothing
  guards it.
- **Inference input loader** (`load_data.dfy`, module `LoadData`). Each line
  is stripped and blank lines are dropped. Every other line becomes its
  characters separated by single spaces.
- **Training schedule** (`training.dfy`, module `Training`). The external
  evaluation interval defaults to ten times the statistics interval. The
  loop logs statistics and runs external evaluations at multiples of those
  intervals, and at each epoch boundary it checkpoints and evaluates. The
  training op's outcomes are a parameter.
- **Python built-ins** (`py_builtins.dfy`, module `PyBuiltins`).
  `str.strip()` removes exactly the characters for which `str.isspace()`
  holds, including U+3000, the ideographic space. `str.join` is modelled,
  and so is `%` with Python's floor semantics, which raises on a zero
  divisor. `Log` records what a run produced and whether it ended normally
  or by raising.

End of data (TensorFlow's `OutOfRangeError`) is modelled as the end of a
finite sequence.

## Model

| member | source | states |
|---|---|---|
| Segmentation.Reconstruct | sycws/main_body.py:195-208 | A reconstructed line never starts or ends with whitespace, and a zero valid length gives the empty line |
| Segmentation.ReconstructLine | sycws/main_body.py:195-207 | The loop that grows `newline` pair by pair and strips it computes exactly `Reconstruct` of the row, its tags and its length |
| Segmentation.ReconstructIgnoresPadding | sycws/main_body.py:196-197 | Two rows that agree on their first `length` characters and tags give the same line, whatever padding follows |
| Segmentation.RawLayout | sycws/main_body.py:200-205 | Before stripping, character `i` sits at position `i` + (number of S/B tags among the first `i+1`). The element before it is a space when its tag is S or B, and otherwise the previous character (nothing, for a first character tagged M or E) |
| Segmentation.RawIsJoinedWords | sycws/main_body.py:198-205 | The unstripped line is the words joined by single spaces, plus one leading space when the first tag is S or B |
| Segmentation.WordsKeepText | sycws/main_body.py:196-205 | Grouping into words keeps every character of the cut row, in order |
| Segmentation.ReconstructIsJoinedWords | sycws/main_body.py:195-207 | When the cut row has no whitespace, the line is exactly its words joined by single spaces |
| Segmentation.ReconstructShape | sycws/main_body.py:195-207 | When the cut row has no whitespace, deleting the spaces of the line gives back the cut row, and no two spaces are adjacent |
| Segmentation.WordsOfRetag | sycws/main_body.py:42-45 | Tagging a list of words with BMES tags (S, or B M… E) and grouping again gives the same words |
| Segmentation.ReconstructIdempotent | sycws/main_body.py:195-207 | For every row, re-tagging the words of its line with BMES tags and reconstructing again gives the same line |
| Inference.RunInference | sycws/main_body.py:185-208 | The output loop writes exactly `Transcript(batches)`: the lines of every batch in order, or an AssertionError at the first inconsistent batch |
| Inference.WriteBatch | sycws/main_body.py:195-208 | The row loop appends to what was already written exactly one line per row of the batch, in row order |
| Inference.BatchLinesAt | sycws/main_body.py:195-208 | Line `j` of a batch's output is the reconstruction of row `j` from its own characters, tags and valid length |
| Inference.TranscriptFinishes | sycws/main_body.py:185-208 | If every batch passes both assertions, the run finishes with one line per row |
| Inference.TranscriptAborts | sycws/main_body.py:192-193 | The first batch whose text, tag and length counts differ raises AssertionError. The lines of all earlier batches are written and none of its own rows are, so nothing is silently truncated |
| Inference.TranscriptInOrder | sycws/main_body.py:185-208 | The lines of the later batches follow the lines of the earlier ones |
| Evaluation.Evaluate | sycws/main_body.py:136-149 | The totals are the sums of the per-batch counts from zero. Precision is right/chars and the line total is the sum of the line counts. It raises ZeroDivisionError exactly when no characters were counted |
| Evaluation.SumAppend | sycws/main_body.py:139-144 | The totals over two streams one after the other are the sums of their separate totals |
| Evaluation.PrecisionAtMostOne | sycws/main_body.py:149 | If no batch reports more right characters than characters, the precision numerator is at most its denominator |
| LoadData.LoadInferenceData | sycws/main_body.py:153-163 | The loop that appends to `inference_data` produces exactly `Loaded(lines)` |
| LoadData.SpacedLayout | sycws/main_body.py:161 | Joining the characters of an n-character line with spaces gives 2n−1 characters: the characters at even positions and spaces at odd ones |
| LoadData.SpacedRoundTrip | sycws/main_body.py:161 | Taking the even positions of a spaced line gives the line back |
| LoadData.EntryShape | sycws/main_body.py:159-161 | A line that is blank after stripping gets no entry. Any other line gets exactly one entry, of odd length, neither starting nor ending with whitespace |
| LoadData.LoadedAppend | sycws/main_body.py:158-161 | Loading two parts of a file gives the first part's entries followed by the second's, so input order is kept |
| LoadData.LoadedCount | sycws/main_body.py:158-161 | There is exactly one entry per line that is not blank after stripping |
| Training.EvalInterval | sycws/main_body.py:53-54 | The interval is the configured value when set and non-zero, and otherwise 10 × `steps_per_stats`. It is zero only when both intervals are |
| Training.Fires | sycws/main_body.py:108 | `step % n == 0` raises on a zero interval and otherwise holds exactly when `step` is a multiple of `n` |
| Training.RunTraining | sycws/main_body.py:76-124 | The driver loop produces exactly `Train(...)`: a first evaluation, then for each training-op outcome an epoch boundary or the statistics and evaluations due at the new step, until `num_train_steps` |
| Training.StatsOnMultiples | sycws/main_body.py:108-113 | Statistics are logged only at global steps that are multiples of `steps_per_stats` |
| Training.StatsAtMultiples | sycws/main_body.py:108-113 | Every step reached below `num_train_steps` that is a multiple of a non-zero `steps_per_stats` logs its statistics |
| Training.EvaluationAtMultiples | sycws/main_body.py:115-124 | Every step reached below `num_train_steps` that is a multiple of the effective external-evaluation interval saves a checkpoint and evaluates |
| Training.EvaluationOnMultiples | sycws/main_body.py:115-124 | Checkpoint-and-evaluate happens only at global steps that are multiples of the effective external-evaluation interval |
| Training.DefaultEvaluationFollowsStats | sycws/main_body.py:53-54 | With the default interval, every step due for external evaluation is also due for statistics |
| PyBuiltins.StripExact | sycws/main_body.py:207 | `strip()` of whitespace + core + whitespace is the core, when the core neither starts nor ends with whitespace |
| PyBuiltins.TrimStartSuffix | sycws/main_body.py:207 | The left half of `strip()` removes a prefix made only of whitespace and keeps the rest of the string unchanged |
| PyBuiltins.TrimEndPrefix | sycws/main_body.py:207 | The right half of `strip()` removes a suffix made only of whitespace and keeps the rest of the string unchanged |
| PyBuiltins.PyModZeroIffMultiple | sycws/main_body.py:115 | With Python's `%`, `a % b == 0` holds exactly when `a` is a whole multiple of `b`, for either sign of `b` |

## Left out

- TensorFlow sessions, graphs, iterator initialisation and the `model_helper` calls (`create_*_model`, `create_or_load_model`, `load_model`) are external library calls whose behaviour is not visible. The training op, the evaluation op and the inference op become their outputs, passed in as sequences.
- Checkpoint saving (`saver.save`, `os.path.join`) is I/O. It appears only as the step recorded in the `EpochBoundary` and `ExternalEvaluation` events.
- Wall-clock timing, `avg_time`, the loss value and all `print` output, including the float formatting of precision, are left out. They are floating point, clock-dependent, or only formatting. The statistics line is the `Stats(step)` event.
- Reading and writing files through `tf.gfile` and `codecs`, UTF-8 decoding (`char.decode("utf-8")`) and the newline after each written line are left out. Characters are already-decoded `char`s, the input file is a sequence of lines, and the transcript is the sequence of lines written.
- `RunTraining` models a finite prefix of a run. It stops when the given training-op outcomes run out, while the real loop keeps calling the op until `num_train_steps`.
- The evaluation passes started inside the training loop appear as events. Their precision is not computed there, and `Evaluate` models one pass on its own.
- Segmentation.ReconstructIdempotent: states idempotence for re-tagging the line's word list (`Words`). It does not re-split the output string on spaces. The two agree for rows without whitespace, because `ReconstructIsJoinedWords` shows the line is then those words joined by single spaces.
- Segmentation.ReconstructShape: content preservation and the no-double-space property are stated only for rows without whitespace characters. A row containing whitespace can lose characters to `strip()` or produce adjacent spaces.
- Evaluation.Evaluate: the three counts are taken to be Python integers. If the evaluation op returned NumPy scalars, `0 / 0` under true division would give `nan` with a warning instead of raising, and only an empty stream would raise.
- An evaluation pass that raises `ZeroDivisionError` inside `train()` (the first evaluation, the one at each epoch boundary, or an external evaluation) would end the run. `Train` records such passes only as events, so that exception is not carried into its `Log`, and the run is shown continuing.
- Valid lengths are never negative: `seqLens` is a sequence of natural numbers. A negative `length` would make `text_line[:length]` cut from the end instead.
- `IsWhitespace` is the set for which Python 3's `str.isspace()` holds. Under Python 2, `unicode.strip()` also removes U+180E (Mongolian vowel separator), which this model does not strip.
