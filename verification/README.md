# Parallel benchmark runner: per-task bookkeeping

`parallel-benchmark.py` runs one command template `n` times through a
`multiprocessing.Pool` of `p` workers. It writes each run's output to its own
log file and reports the total wall-clock time. This project models the
deterministic part of that script and proves properties of it:

- `job_iterator` makes the stream of task descriptors
  `(i, command, use_shell, output_prefix)`.
- For each descriptor, `execute_` derives the concrete command by replacing
  every `%n` with the index formatted as `f'{i:03d}'`. It also names the log
  file `f'{output_prefix}/out-{i:03d}.log'`.

The model has three modules:

- `Decimal` (`decimal.dfy`) renders a natural number as `str` would
  (`NatToDecimal`) and pads it to three digits as the `03d` format does
  (`Pad3`). `ParseDecimal` reads a numeral back and is the inverse of both.
- `Strings` (`strings.dfy`) models Python's `str.replace` without a count
  (`ReplaceAll`). The scan goes left to right and replaces non-overlapping
  occurrences, with Python's behaviour for an empty pattern. `Count` is the
  matching `str.count`; for an empty pattern it is the length plus one, as
  in Python.
- `ParallelBenchmark` (`parallel_benchmark.dfy`) holds the descriptor stream
  (`JobIterator`), the log path (`LogPath`) and the per-task resolution
  (`Resolve`). `Plan` lists the invocations the workers perform: one per
  descriptor handed to the pool, in submission order.

The script's task count `n` is a Python integer. `range(n)` is empty when
`n <= 0`, so `JobIterator` takes an `int`.

`ReplaceAll`'s own contract says that a string without the pattern comes back
unchanged. The lemmas below state the rest: where the replacement text goes,
the length of the result, and that no `%n` is left.

## Model

| member | source | states |
|---|---|---|
| ParallelBenchmark.JobIterator | video-encoding/ffmpeg/test-scripts/parallel-benchmark.py:34-36 | exactly `max(n, 0)` descriptors; the k-th is `(k, command, use_shell, output_prefix)` with the arguments unchanged |
| ParallelBenchmark.JobIndicesExact | video-encoding/ffmpeg/test-scripts/parallel-benchmark.py:35-36 | the indices handed out are exactly {0, …, n-1}; they strictly increase along the stream, so none repeats |
| Decimal.NatToDecimal | video-encoding/ffmpeg/test-scripts/parallel-benchmark.py:42-43 | the decimal numeral of `i` is non-empty, all digits and has no leading zero; its length `L` satisfies `10^(L-1) <= i < 10^L` (except that 0 has length 1) |
| Decimal.DecimalLength | video-encoding/ffmpeg/test-scripts/parallel-benchmark.py:42-43 | for `k >= 1`, the numeral of `i` fits in `k` characters exactly when `i < 10^k` |
| Decimal.ParseNatToDecimal | video-encoding/ffmpeg/test-scripts/parallel-benchmark.py:42-43 | reading `str(i)` back as decimal gives `i` |
| Decimal.NatToDecimalParse | video-encoding/ffmpeg/test-scripts/parallel-benchmark.py:42-43 | every canonical numeral is `str` of the value it denotes, so rendering and parsing are inverse bijections |
| Decimal.Pad3 | video-encoding/ffmpeg/test-scripts/parallel-benchmark.py:42-43 | `f'{i:03d}'` is all digits. It is exactly 3 characters for `i < 1000`. For `i >= 1000` it is the full numeral of `i`, never truncated, and longer than 3 characters |
| Decimal.PadRoundTrip | video-encoding/ffmpeg/test-scripts/parallel-benchmark.py:42-43 | reading the padded index back as decimal gives the index |
| Decimal.PadInjective | video-encoding/ffmpeg/test-scripts/parallel-benchmark.py:42-43 | two indices have the same padded form if and only if they are equal |
| Strings.ReplaceAllLength | video-encoding/ffmpeg/test-scripts/parallel-benchmark.py:42 | `str.replace` changes the length by `count * (len(new) - len(old))` |
| Strings.CountZero | video-encoding/ffmpeg/test-scripts/parallel-benchmark.py:42 | the scan replaces nothing if and only if the pattern does not occur anywhere |
| Strings.ReplaceAll | video-encoding/ffmpeg/test-scripts/parallel-benchmark.py:42 | `str.replace`: a command with no occurrence of the pattern comes back unchanged |
| Strings.ReplaceSplit | video-encoding/ffmpeg/test-scripts/parallel-benchmark.py:42 | for a two-character pattern such as `%n`, the text before the first occurrence is kept, the replacement is written where the occurrence stood, and the scan carries on with the rest |
| Strings.ReplaceIdentity | video-encoding/ffmpeg/test-scripts/parallel-benchmark.py:42 | when the replacement's length differs from the pattern's, the result equals the input if and only if the pattern does not occur |
| Strings.ReplaceLeavesNoPattern | video-encoding/ffmpeg/test-scripts/parallel-benchmark.py:42 | a non-empty replacement that shares no character with a two-character pattern leaves no occurrence: none survives and none forms across a replacement's edges |
| ParallelBenchmark.LogPath | video-encoding/ffmpeg/test-scripts/parallel-benchmark.py:43 | the log path is `prefix`, then `/out-`, then the padded index, then `.log`; the digits between them read back as the task index |
| ParallelBenchmark.LogPathInjective | video-encoding/ffmpeg/test-scripts/parallel-benchmark.py:43 | two tasks under one prefix share a log path if and only if they have the same index |
| ParallelBenchmark.Resolve | video-encoding/ffmpeg/test-scripts/parallel-benchmark.py:41-43 | the resolved command is `command.replace('%n', f'{i:03d}')`; it contains no `%n`; it equals the template exactly when the template has no `%n`; the shell flag is passed through; output goes to `LogPath(prefix, i)` |
| ParallelBenchmark.Plan | video-encoding/ffmpeg/test-scripts/parallel-benchmark.py:27-29 | the pool is given `max(n, 0)` invocations; the k-th runs `command` with `%n` replaced by the padded `k`, keeps the shell flag and logs to `LogPath(prefix, k)` |
| ParallelBenchmark.PlanTasksIsolated | video-encoding/ffmpeg/test-scripts/parallel-benchmark.py:27-43 | no two invocations of a run share a log file; none has a `%n` left in its command |

## Left out

- Argument parsing with `argparse` and the `os.mkdir` call that ignores `FileExistsError` (lines 13-24). These are command-line handling and filesystem I/O.
- `multiprocessing.Pool` and `imap_unordered` (lines 26 and 29). The concurrency cap, scheduling and completion order are not modelled. `Plan` lists the invocations in submission order and says nothing about when or in what order they run.
- The `tqdm` progress display and the `time.time()` measurement with its final `print` (lines 28-32). These are display and clock reads.
- `open(...)` and `subprocess.run` (lines 43-44). Creating the log file, spawning the process, redirecting its streams and discarding its exit status are I/O. The model stops at the `Invocation` value these calls would receive.
- `execute`, the wrapper that unpacks the tuple (lines 38-39). It adds no logic; `Resolve` takes the `Job` value directly.
- Negative indices in `f'{i:03d}'`. `job_iterator` only produces non-negative indices, so `Pad3` is defined on naturals.
- A missing `-n` or `-c` option, which reaches `range(None)` or `None.replace` in the script. That is a command-line error; the model takes `n` and `command` as given.
