/**
 * The queue processor. Each tick, unless a tick is already running or the
 * queue is empty, takes the head job, applies it to the store through the
 * repositories and, when that did not throw, rebuilds the cache. A job that
 * throws is dropped.
 */
module Processor {
  import opened Entities
  import opened Store
  import opened Queue
  import BearRepository
  import ColorRepository
  import ColorNames
  import Cache

  /**
   * What the model does not compute: whether the store call throws (a lost
   * connection, a violated constraint), and what `updateBearColors` does.
   * The repository defines no such method; `Some(t)` says the call returned
   * and left the tables as `t`, `None` that it threw.
   */
  datatype Environment = Environment(storeThrows: bool, bearColorsUpdate: Option<DbState>)

  /** The unmodelled `updateBearColors` leaves a consistent store when it returns. */
  ghost predicate EnvironmentConsistent(env: Environment)
  {
    env.bearColorsUpdate.Some? ==> Consistent(env.bearColorsUpdate.value)
  }

  /** How the `switch` of `processJob` ends: the store operation returned, or something threw. */
  datatype Outcome = Completed(after: DbState) | Failed(message: string)

  const StoreError := "store operation threw"
  const MissingOperationError := "updateBearColors threw"

  /** A store operation that returns `after` unless the store throws. */
  ghost function Run(env: Environment, after: DbState): Outcome
  {
    if env.storeThrows then Failed(StoreError) else Completed(after)
  }

  /**
   * The `switch` of `processJob`: each known job type runs one store
   * operation with the payload's fields (`hex` is passed to `addColor`,
   * which takes no such parameter); any other type throws.
   */
  ghost function Dispatch(s: DbState, job: QueueJob, env: Environment): (r: Outcome)
    ensures r.Failed? <==>
      job.jobType.Unknown? || (if job.jobType == UpdateBearColors then env.bearColorsUpdate.None? else env.storeThrows)
  {
    var d := job.data;
    match job.jobType
    case CreateBear => Run(env, BearRepository.AddBearEffect(s, d.name, d.size, d.colors))
    case UpdateBearName => Run(env, BearRepository.UpdateBearNameEffect(s, d.id, d.name))
    case UpdateBearSize => Run(env, BearRepository.UpdateBearSizeEffect(s, d.id, d.size))
    case UpdateBearColors =>
      if env.bearColorsUpdate.Some? then Completed(env.bearColorsUpdate.value) else Failed(MissingOperationError)
    case DeleteBear => Run(env, BearRepository.DeleteBearEffect(s, d.id))
    case AddColor => Run(env, ColorRepository.AddColorEffect(s, d.name))
    case DeleteColor => Run(env, ColorRepository.DeleteColorByName(s, d.name))
    case Unknown(tag) => Failed("Unknown job type: " + tag)
  }

  /** The tables after the job: the operation's result, or unchanged when it threw. */
  ghost function After(s: DbState, job: QueueJob, env: Environment): DbState
  {
    match Dispatch(s, job, env)
    case Completed(t) => t
    case Failed(_) => s
  }

  /** Every job leaves a consistent store consistent, whether it completes or throws. */
  lemma DispatchKeepsConsistent(s: DbState, job: QueueJob, env: Environment)
    requires Consistent(s) && EnvironmentConsistent(env)
    ensures Consistent(After(s, job, env))
  {
    var d := job.data;
    match job.jobType
    case CreateBear =>
      BearRepository.StoreBearKeepsConsistent(s, d.name, d.size, ColorNames.Normalise(d.colors));
    case AddColor =>
      ColorRepository.AddColorKeepsConsistent(s, d.name);
    case DeleteColor =>
      var n := ColorNames.Clean(d.name);
      if n in s.colors.Values {
        ColorRepository.DeleteColorKeepsConsistent(s, ColorRepository.ColorIdOf(s.colors, n));
      }
    case _ =>
  }

  /**
   * A `false` answer is not a failure: renaming, resizing or deleting a bear
   * that does not exist changes nothing and still completes, so the cache
   * is rebuilt.
   */
  lemma MissingBearStillCompletes(s: DbState, job: QueueJob, env: Environment)
    requires Consistent(s)
    requires job.jobType == UpdateBearName || job.jobType == UpdateBearSize || job.jobType == DeleteBear
    requires !env.storeThrows && job.data.id !in s.bears
    ensures Dispatch(s, job, env) == Completed(s)
  {
    if job.jobType == DeleteBear {
      var t := BearRepository.DeleteBearEffect(s, job.data.id);
      assert t.links == s.links;
      assert t.bears == s.bears;
    }
  }

  /** The `hex` field of an `ADD_COLOR` job has no effect. */
  lemma HexIgnored(s: DbState, job: QueueJob, env: Environment, hex: string)
    ensures Dispatch(s, job.(data := job.data.(hex := hex)), env) == Dispatch(s, job, env)
  {
  }

  // ------------------------------------------------------------------ ticks

  /** What a tick reads and changes, besides the cache. */
  datatype Snapshot = Snapshot(pending: seq<QueueJob>, store: DbState, busy: bool)

  /**
   * One `processQueue()`: nothing when busy or when the queue is empty;
   * otherwise the head job is removed and applied, and the flag is clear
   * afterwards.
   */
  ghost function Tick(p: Snapshot, env: Environment): Snapshot
  {
    if p.busy || p.pending == [] then p
    else Snapshot(p.pending[1..], After(p.store, p.pending[0], env), false)
  }

  /** Successive ticks, the `i`-th in environment `envs[i]`. */
  ghost function Ticks(p: Snapshot, envs: seq<Environment>): Snapshot
    decreases |envs|
  {
    if envs == [] then p else Ticks(Tick(p, envs[0]), envs[1..])
  }

  /** The store after the jobs, in order. */
  ghost function ApplyJobs(s: DbState, jobs: seq<QueueJob>, envs: seq<Environment>): DbState
    requires |jobs| == |envs|
    decreases |jobs|
  {
    if jobs == [] then s else ApplyJobs(After(s, jobs[0], envs[0]), jobs[1..], envs[1..])
  }

  /**
   * FIFO: `n` ticks with jobs pending consume the first `n` jobs and apply
   * them to the store in enqueue order, one per tick.
   */
  lemma {:induction false} TicksAreFifo(p: Snapshot, envs: seq<Environment>)
    requires !p.busy && |envs| <= |p.pending|
    ensures Ticks(p, envs) == Snapshot(p.pending[|envs|..], ApplyJobs(p.store, p.pending[..|envs|], envs), false)
    decreases |envs|
  {
    if envs != [] {
      var n, jobs := |envs|, p.pending[..|envs|];
      var q := Tick(p, envs[0]);
      assert q == Snapshot(p.pending[1..], After(p.store, jobs[0], envs[0]), false);
      assert Ticks(p, envs) == Ticks(q, envs[1..]);
      assert ApplyJobs(p.store, jobs, envs) == ApplyJobs(q.store, jobs[1..], envs[1..]);
      TicksAreFifo(q, envs[1..]);
      assert q.pending[n - 1..] == p.pending[n..];
      assert q.pending[..n - 1] == jobs[1..];
    } else {
      assert p.pending[..0] == [] && p.pending[0..] == p.pending;
    }
  }

  /** Once the queue is empty, or while a tick is running, ticks change nothing. */
  lemma {:induction false} IdleTicks(p: Snapshot, envs: seq<Environment>)
    requires p.busy || p.pending == []
    ensures Ticks(p, envs) == p
    decreases |envs|
  {
    if envs != [] {
      IdleTicks(Tick(p, envs[0]), envs[1..]);
    }
  }

  /** A run of ticks keeps the store consistent. */
  lemma {:induction false} TicksKeepConsistent(p: Snapshot, envs: seq<Environment>)
    requires Consistent(p.store)
    requires forall i :: 0 <= i < |envs| ==> EnvironmentConsistent(envs[i])
    ensures Consistent(Ticks(p, envs).store)
    decreases |envs|
  {
    if envs != [] {
      if !p.busy && p.pending != [] {
        DispatchKeepsConsistent(p.store, p.pending[0], envs[0]);
      }
      TicksKeepConsistent(Tick(p, envs[0]), envs[1..]);
    }
  }

  /**
   * The `switch` of `processJob` on the store: the operation the job's type
   * names, with the payload's fields; `threw` says whether it threw.
   */
  method RunJob(db: Database, job: QueueJob, env: Environment) returns (threw: bool)
    requires db.Valid() && EnvironmentConsistent(env)
    modifies db
    ensures db.Valid()
    ensures db.State() == After(old(db.State()), job, env)
    ensures threw <==> Dispatch(old(db.State()), job, env).Failed?
  {
    ghost var before := db.State();
    var d := job.data;
    threw := false;
    match job.jobType {
      case CreateBear =>
        if env.storeThrows {
          threw := true;
        } else {
          var added := BearRepository.AddBear(db, d.name, d.size, d.colors);
        }
      case UpdateBearName =>
        if env.storeThrows {
          threw := true;
        } else {
          var updated := BearRepository.UpdateBearName(db, d.id, d.name);
        }
      case UpdateBearSize =>
        if env.storeThrows {
          threw := true;
        } else {
          var updated := BearRepository.UpdateBearSize(db, d.id, d.size);
        }
      case UpdateBearColors =>
        // `updateBearColors` is not defined by the repository
        if env.bearColorsUpdate.None? {
          threw := true;
        } else {
          var t := env.bearColorsUpdate.value;
          db.bears, db.colors, db.links, db.nextBearId, db.nextColorId :=
            t.bears, t.colors, t.links, t.nextBearId, t.nextColorId;
        }
      case DeleteBear =>
        if env.storeThrows {
          threw := true;
        } else {
          var deleted := BearRepository.DeleteBear(db, d.id);
        }
      case AddColor =>
        if env.storeThrows {
          threw := true;
        } else {
          var id := ColorRepository.AddColor(db, d.name);
        }
      case DeleteColor =>
        if env.storeThrows {
          threw := true;
        } else {
          var deleted := ColorRepository.DeleteColor(db, d.name);
        }
      case Unknown(tag) =>
        threw := true;
    }
    DispatchKeepsConsistent(before, job, env);
  }

  class QueueProcessor {
    var isProcessing: bool
    const queueService: LocalQueue
    const db: Database
    const cacheService: Cache.MemoryCache

    /** The queue is well formed, the store consistent, and the cache describes the store as it is. */
    ghost predicate Valid()
      reads this, queueService, db, cacheService
    {
      queueService.Valid() && db.Valid() && cacheService.Valid() && cacheService.source == db.State()
    }

    function Snap(): Snapshot
      reads this, queueService, db
    {
      Snapshot(queueService.queue, db.State(), isProcessing)
    }

    constructor (q: LocalQueue, store: Database, cache: Cache.MemoryCache)
      requires q.Valid() && store.Valid() && cache.Valid() && cache.source == store.State()
      ensures Valid() && !isProcessing
      ensures queueService == q && db == store && cacheService == cache
    {
      isProcessing := false;
      queueService, db, cacheService := q, store, cache;
    }

    /**
     * `processJob(job)`: the store operation the job's type names, then a
     * cache rebuild when it did not throw. Nothing escapes: a throw is
     * caught and the job is dropped.
     */
    method ProcessJob(job: QueueJob, env: Environment)
      requires Valid() && EnvironmentConsistent(env)
      modifies db, cacheService
      ensures Valid()
      ensures db.State() == After(old(db.State()), job, env)
      ensures Dispatch(old(db.State()), job, env).Completed? ==> cacheService.rebuilds == old(cacheService.rebuilds) + 1
      ensures Dispatch(old(db.State()), job, env).Failed? ==> unchanged(cacheService)
    {
      var threw := RunJob(db, job, env);
      if !threw {
        cacheService.RebuildCache(db);
      }
    }

    /**
     * `processQueue()`: when no tick is running and a job is pending, the
     * flag is raised, the head job is dequeued and processed, and the flag is
     * cleared again; otherwise nothing changes.
     */
    method ProcessQueue(env: Environment)
      requires Valid() && EnvironmentConsistent(env)
      modifies this, queueService, db, cacheService
      ensures Valid()
      ensures Snap() == Tick(old(Snap()), env)
      ensures queueService.jobIdCounter == old(queueService.jobIdCounter)
      ensures old(isProcessing) || old(queueService.queue) == [] ==>
        unchanged(this, queueService, db, cacheService)
      ensures !old(isProcessing) && old(queueService.queue) != [] ==>
        var outcome := Dispatch(old(db.State()), old(queueService.queue[0]), env);
        && (outcome.Completed? ==> cacheService.rebuilds == old(cacheService.rebuilds) + 1)
        && (outcome.Failed? ==> unchanged(cacheService))
    {
      if isProcessing {
        return;
      }
      if queueService.IsEmpty() {
        return;
      }
      isProcessing := true;
      var job := queueService.Dequeue();
      if job.Some? {
        ProcessJob(job.value, env);
      }
      isProcessing := false;
    }
  }
}
