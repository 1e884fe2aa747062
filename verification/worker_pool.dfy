/** Sizing of the two thread-loader worker pools of the release build. The
    CPU count is an input (the number of entries `os.cpus()` returns). */
module WorkerPool {
  import opened Wrappers

  /** Half the CPUs, rounded down; all CPUs when that half is at most one;
      never more than four. */
  function WorkerCount(cpus: nat): (workers: nat)
    ensures cpus <= 3 ==> workers == cpus
    ensures 4 <= cpus <= 7 ==> workers == cpus / 2
    ensures 8 <= cpus ==> workers == 4
    ensures 1 <= cpus ==> 1 <= workers <= 4
    ensures workers <= cpus
  {
    var half := cpus / 2;
    if half <= 1 then cpus
    else if half >= 4 then 4
    else half
  }

  /** More CPUs can mean fewer workers: three CPUs get three workers, four
      get two. */
  lemma WorkerCountNotMonotone()
    ensures WorkerCount(3) > WorkerCount(4)
  {
  }

  /** Options of one thread-loader pool; `None` is an absent property, so
      `PoolOptions(None, None)` is the empty object `{}`. */
  datatype PoolOptions = PoolOptions(workers: Option<nat>, workerParallelJobs: Option<nat>)

  const EmptyPool: PoolOptions := PoolOptions(None, None)

  /** The babel pool and the sass pool. */
  datatype Pools = Pools(js: PoolOptions, scss: PoolOptions)

  /** Both pools are empty in a debug build; in a release build they share
      the worker count and only the sass pool limits parallel jobs to two. */
  function ThreadPools(isDebug: bool, cpus: nat): (pools: Pools)
    ensures isDebug ==> pools.js == EmptyPool && pools.scss == EmptyPool
    ensures !isDebug ==> pools.js.workers == pools.scss.workers == Some(WorkerCount(cpus))
    ensures !isDebug ==> pools.js.workerParallelJobs == None && pools.scss.workerParallelJobs == Some(2)
  {
    if isDebug then Pools(EmptyPool, EmptyPool)
    else
      var workers := WorkerCount(cpus);
      Pools(PoolOptions(Some(workers), None), PoolOptions(Some(workers), Some(2)))
  }

  /** On a machine that reports at least one CPU, each release pool gets
      between one and four workers. */
  lemma ReleasePoolsBounded(cpus: nat)
    requires 1 <= cpus
    ensures var pools := ThreadPools(false, cpus);
            pools.js.workers.Some? && 1 <= pools.js.workers.value <= 4 &&
            pools.scss.workers.Some? && 1 <= pools.scss.workers.value <= 4
  {
  }
}
