/** The per-task bookkeeping of the parallel benchmark runner: the stream of
    task descriptors handed to the worker pool, and what each worker derives
    from its descriptor before spawning the command (the command with `%n`
    filled in and the path of the task's log file). */
module ParallelBenchmark {
  import opened Decimal
  import opened Strings

  /** One task descriptor: `(i, command, use_shell, output_prefix)`. */
  datatype Job = Job(i: nat, command: string, useShell: bool, prefix: string)

  /** What a worker runs for one task: the resolved command, whether it goes
      through `sh`, and the file that receives its stdout and stderr. */
  datatype Invocation = Invocation(command: string, useShell: bool, logPath: string)

  /** The placeholder that the command template uses for the task index. */
  const Placeholder: string := "%n"

  /** `job_iterator(command, use_shell, n, output_prefix)`: one descriptor per
      index of `range(n)`, in ascending order; `n <= 0` gives no tasks. */
  function JobIterator(command: string, useShell: bool, n: int, prefix: string): (jobs: seq<Job>)
    ensures |jobs| == if n <= 0 then 0 else n
    ensures forall k :: 0 <= k < |jobs| ==> jobs[k] == Job(k, command, useShell, prefix)
    decreases n
  {
    if n <= 0 then [] else JobIterator(command, useShell, n - 1, prefix) + [Job(n - 1, command, useShell, prefix)]
  }

  /** The set of indices a stream of descriptors hands out. */
  function Indices(jobs: seq<Job>): set<nat>
  {
    set j | j in jobs :: j.i
  }

  /** The indices handed out are exactly 0 .. n-1, each once, in strictly
      ascending order. */
  lemma JobIndicesExact(command: string, useShell: bool, n: int, prefix: string)
    ensures forall k: nat :: k in Indices(JobIterator(command, useShell, n, prefix)) <==> k < n
    ensures forall a, b :: 0 <= a < b < |JobIterator(command, useShell, n, prefix)| ==>
      JobIterator(command, useShell, n, prefix)[a].i < JobIterator(command, useShell, n, prefix)[b].i
  {
    var jobs := JobIterator(command, useShell, n, prefix);
    forall k: nat | k < n
      ensures k in Indices(jobs)
    {
      assert jobs[k].i == k;
    }
  }

  /** `f'{output_prefix}/out-{i:03d}.log'`. */
  function LogPath(prefix: string, i: nat): (path: string)
    ensures |path| == |prefix| + 9 + |Pad3(i)|
    ensures path[..|prefix|] == prefix && path[|prefix|..|prefix| + 5] == "/out-"
    ensures path[|path| - 4..] == ".log"
    ensures AllDigits(path[|prefix| + 5..|path| - 4]) && ParseDecimal(path[|prefix| + 5..|path| - 4]) == i
  {
    var pad := Pad3(i);
    var path := prefix + "/out-" + pad + ".log";
    assert path[|prefix| + 5..|path| - 4] == pad;
    PadRoundTrip(i);
    path
  }

  /** Two tasks share a log file only if they have the same index. */
  lemma LogPathInjective(prefix: string, i: nat, j: nat)
    ensures LogPath(prefix, i) == LogPath(prefix, j) <==> i == j
  {
  }

  /** `execute_(i, command, use_shell, output_prefix)` up to the spawn: the
      command with every `%n` replaced by the padded index, the shell flag, and
      the log path. */
  function Resolve(job: Job): (inv: Invocation)
    ensures inv.useShell == job.useShell
    ensures inv.logPath == LogPath(job.prefix, job.i)
    ensures inv.command == ReplaceAll(job.command, Placeholder, Pad3(job.i))
    ensures !Occurs(inv.command, Placeholder)
    ensures inv.command == job.command <==> !Occurs(job.command, Placeholder)
  {
    var pad := Pad3(job.i);
    ReplaceLeavesNoPattern(job.command, Placeholder, pad);
    ReplaceIdentity(job.command, Placeholder, pad);
    Invocation(ReplaceAll(job.command, Placeholder, pad), job.useShell, LogPath(job.prefix, job.i))
  }

  /** The invocations the workers perform: one per descriptor handed to the
      pool, each resolved by the worker, listed in submission order (the pool
      may run and finish them in any order). */
  function Plan(command: string, useShell: bool, n: int, prefix: string): (plan: seq<Invocation>)
    ensures |plan| == if n <= 0 then 0 else n
    ensures forall k :: 0 <= k < |plan| ==>
      plan[k] == Invocation(ReplaceAll(command, Placeholder, Pad3(k)), useShell, LogPath(prefix, k))
  {
    var jobs := JobIterator(command, useShell, n, prefix);
    seq(|jobs|, k requires 0 <= k < |jobs| => Resolve(jobs[k]))
  }

  /** Every task of a run gets its own log file and a command with no `%n` left. */
  lemma PlanTasksIsolated(command: string, useShell: bool, n: int, prefix: string)
    ensures forall a, b :: 0 <= a < b < |Plan(command, useShell, n, prefix)| ==>
      Plan(command, useShell, n, prefix)[a].logPath != Plan(command, useShell, n, prefix)[b].logPath
    ensures forall a :: 0 <= a < |Plan(command, useShell, n, prefix)| ==>
      !Occurs(Plan(command, useShell, n, prefix)[a].command, Placeholder)
  {
  }
}
