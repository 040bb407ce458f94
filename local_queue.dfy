/**
 * The in-process job queue: an array used as a FIFO, and a counter that
 * names each job `job-1`, `job-2`, ... in enqueue order.
 */
module Queue {
  import opened Entities

  /**
   * The job types. A job's type is not checked at run time, so a job can
   * carry a tag that is none of them; `Unknown` stands for such a job.
   */
  datatype JobType =
    | CreateBear
    | UpdateBearName
    | UpdateBearSize
    | UpdateBearColors
    | DeleteBear
    | AddColor
    | DeleteColor
    | Unknown(tag: string)

  /** The fields the processor reads from a job's untyped payload. */
  datatype JobData = JobData(id: int, name: string, size: int, colors: seq<string>, hex: string)

  datatype QueueJob = QueueJob(id: string, jobType: JobType, data: JobData)

  /** The decimal numeral of `n`, without leading zeros. */
  function Decimal(n: nat): (r: string)
    ensures |r| >= 1
    ensures forall i :: 0 <= i < |r| ==> '0' <= r[i] <= '9'
    decreases n
  {
    if n < 10 then [Digit(n)] else Decimal(n / 10) + [Digit(n % 10)]
  }

  function Digit(d: nat): char
    requires d < 10
  {
    ('0' as int + d) as char
  }

  /** Two numbers with the same numeral are the same number. */
  lemma {:induction false} DecimalInjective(m: nat, n: nat)
    ensures Decimal(m) == Decimal(n) ==> m == n
    decreases m
  {
    if Decimal(m) == Decimal(n) {
      var dm, dn := Decimal(m), Decimal(n);
      assert dm[|dm| - 1] == Digit(m % 10);
      assert dn[|dn| - 1] == Digit(n % 10);
      if m >= 10 && n >= 10 {
        assert dm[..|dm| - 1] == Decimal(m / 10);
        assert dn[..|dn| - 1] == Decimal(n / 10);
        DecimalInjective(m / 10, n / 10);
      }
    }
  }

  /** The id `enqueue` gives the job numbered `n`: `job-${n}`. */
  function JobId(n: nat): (r: string)
    ensures |r| > 4 && r[..4] == "job-"
    ensures forall i :: 4 <= i < |r| ==> '0' <= r[i] <= '9'
  {
    "job-" + Decimal(n)
  }

  /** Different job numbers give different ids. */
  lemma JobIdInjective(m: nat, n: nat)
    ensures JobId(m) == JobId(n) <==> m == n
  {
    if JobId(m) == JobId(n) {
      assert JobId(m)[4..] == Decimal(m);
      assert JobId(n)[4..] == Decimal(n);
      DecimalInjective(m, n);
    }
  }

  /** The id the next `enqueue` will use was given to none of the jobs numbered so far. */
  lemma NextIdNeverIssued(counter: nat)
    ensures forall k: nat :: k <= counter ==> JobId(k) != JobId(counter + 1)
  {
    forall k: nat | k <= counter ensures JobId(k) != JobId(counter + 1) {
      JobIdInjective(k, counter + 1);
    }
  }

  class LocalQueue {
    var queue: seq<QueueJob>
    var jobIdCounter: nat
    /** The number in each pending job's id. */
    ghost var numbers: seq<nat>

    /** Pending jobs are numbered in increasing order, none above the counter. */
    ghost predicate Valid()
      reads this
    {
      && |numbers| == |queue|
      && (forall i :: 0 <= i < |queue| ==> queue[i].id == JobId(numbers[i]) && 1 <= numbers[i] <= jobIdCounter)
      && (forall i, j :: 0 <= i < j < |queue| ==> numbers[i] < numbers[j])
    }

    constructor ()
      ensures Valid() && queue == [] && jobIdCounter == 0
    {
      queue, jobIdCounter, numbers := [], 0, [];
    }

    /**
     * `enqueue(type, data)`: the counter goes up by one and names the new
     * job, which is appended at the tail and returned.
     */
    method Enqueue(jobType: JobType, data: JobData) returns (job: QueueJob)
      requires Valid()
      modifies this
      ensures Valid()
      ensures jobIdCounter == old(jobIdCounter) + 1
      ensures job == QueueJob(JobId(jobIdCounter), jobType, data)
      ensures queue == old(queue) + [job]
    {
      jobIdCounter := jobIdCounter + 1;
      job := QueueJob(JobId(jobIdCounter), jobType, data);
      queue := queue + [job];
      numbers := numbers + [jobIdCounter];
    }

    /** `dequeue()`: the head, removed; nothing, and no change, on an empty queue. */
    method Dequeue() returns (job: Option<QueueJob>)
      requires Valid()
      modifies this
      ensures Valid()
      ensures old(queue) == [] ==> job == None && queue == []
      ensures old(queue) != [] ==> job == Some(old(queue)[0]) && queue == old(queue)[1..]
      ensures jobIdCounter == old(jobIdCounter)
    {
      if queue == [] {
        return None;
      }
      job := Some(queue[0]);
      queue := queue[1..];
      numbers := numbers[1..];
    }

    /** `size()` */
    function Size(): (r: nat)
      reads this
      ensures r == |queue|
    {
      |queue|
    }

    /** `isEmpty()` */
    function IsEmpty(): (r: bool)
      reads this
      ensures r <==> Size() == 0
      ensures r <==> queue == []
    {
      |queue| == 0
    }

    /** No two pending jobs share an id, and none has the id the next `enqueue` will use. */
    lemma PendingIdsUnique()
      requires Valid()
      ensures forall i, j :: 0 <= i < j < |queue| ==> queue[i].id != queue[j].id
      ensures forall i :: 0 <= i < |queue| ==> queue[i].id != JobId(jobIdCounter + 1)
    {
      forall i, j | 0 <= i < j < |queue| ensures queue[i].id != queue[j].id {
        JobIdInjective(numbers[i], numbers[j]);
      }
      NextIdNeverIssued(jobIdCounter);
    }
  }
}
