/**
 * The background job table of jobs.c: a singly linked list of `Job`
 * records reached through the caller's `jobList` pointer. `JobList` is
 * that pointer; its ghost `nodes` lists the records in list order, and
 * `Jobs()` their contents. The outcomes of `waitpid` and `kill` are inputs
 * or returned actions, and what `printf` writes is returned as lines.
 */
module Jobs {
  import opened Wrappers
  import opened CStrings

  /** The contents of one `struct Job`. */
  datatype Job = Job(pid: int, pgid: int, command: string, state: int)

  /** A record of the list. Only `next` is ever written after `createJob`. */
  class JobNode {
    const pid: int
    const pgid: int
    const command: string
    const state: int
    var next: JobNode?

    /** createJob: a record holding exactly the given values, with no successor. */
    constructor (pid: int, pgid: int, command: string, state: int)
      ensures this.pid == pid && this.pgid == pgid && this.command == command && this.state == state
      ensures next == null
    {
      this.pid := pid;
      this.pgid := pgid;
      this.command := command;
      this.state := state;
      next := null;
    }

    function Value(): Job {
      Job(pid, pgid, command, state)
    }
  }

  /** The contents of a sequence of records. */
  function JobsOf(ns: seq<JobNode>): (js: seq<Job>)
    ensures |js| == |ns|
    ensures forall k :: 0 <= k < |ns| ==> js[k] == ns[k].Value()
  {
    seq(|ns|, k requires 0 <= k < |ns| => ns[k].Value())
  }

  function RemoveAt<T>(s: seq<T>, k: nat): (r: seq<T>)
    requires k < |s|
    ensures |r| == |s| - 1
    ensures forall j :: 0 <= j < k ==> r[j] == s[j]
    ensures forall j :: k <= j < |r| ==> r[j] == s[j + 1]
  {
    s[..k] + s[k + 1..]
  }

  /** Removing the first element after a prefix. */
  lemma RemoveAtAfterPrefix<T>(a: seq<T>, b: seq<T>)
    requires b != []
    ensures RemoveAt(a + b, |a|) == a + b[1..]
  {
  }

  lemma JobsOfAppend(ns: seq<JobNode>, n: JobNode)
    ensures JobsOf(ns + [n]) == JobsOf(ns) + [n.Value()]
  {
  }

  lemma JobsOfRemoveAt(ns: seq<JobNode>, k: nat)
    requires k < |ns|
    ensures JobsOf(RemoveAt(ns, k)) == RemoveAt(JobsOf(ns), k)
  {
  }

  /** The position of the first job with the given pid. */
  function FirstPidMatch(jobs: seq<Job>, pid: int): (r: Option<nat>)
    ensures r.Some? ==> r.value < |jobs| && jobs[r.value].pid == pid
    ensures r.Some? ==> forall j :: 0 <= j < r.value ==> jobs[j].pid != pid
    ensures r.None? ==> forall j :: 0 <= j < |jobs| ==> jobs[j].pid != pid
  {
    if jobs == [] then None
    else if jobs[0].pid == pid then Some(0)
    else match FirstPidMatch(jobs[1..], pid)
      case None => None
      case Some(k) => Some(k + 1)
  }

  /** The first match is the one with no match before it. */
  lemma FirstPidMatchAt(jobs: seq<Job>, pid: int, i: nat)
    requires i < |jobs| && jobs[i].pid == pid
    requires forall j :: 0 <= j < i ==> jobs[j].pid != pid
    ensures FirstPidMatch(jobs, pid) == Some(i)
  {
  }

  /** The table after removeFromJobList: the first job with `pid` is gone. */
  function RemoveFirstPid(jobs: seq<Job>, pid: int): seq<Job> {
    match FirstPidMatch(jobs, pid)
    case None => jobs
    case Some(k) => RemoveAt(jobs, k)
  }

  /**
   * removeFromJobList removes one job at most, the first whose pid matches;
   * the others stay, in order, and without a match nothing changes.
   */
  lemma RemoveFirstPidRemovesOnlyFirstMatch(jobs: seq<Job>, pid: int)
    ensures (forall k :: 0 <= k < |jobs| ==> jobs[k].pid != pid) ==> RemoveFirstPid(jobs, pid) == jobs
    ensures (exists k :: 0 <= k < |jobs| && jobs[k].pid == pid) ==>
      |RemoveFirstPid(jobs, pid)| == |jobs| - 1 &&
      exists k :: 0 <= k < |jobs| && jobs[k].pid == pid &&
        (forall j :: 0 <= j < k ==> jobs[j].pid != pid) &&
        RemoveFirstPid(jobs, pid) == jobs[..k] + jobs[k + 1..]
  {
    match FirstPidMatch(jobs, pid)
    case None =>
    case Some(k) =>
      assert RemoveFirstPid(jobs, pid) == jobs[..k] + jobs[k + 1..];
  }

  /** The records left by removeFromJobList. */
  function NodesWithoutFirstPid(ns: seq<JobNode>, pid: int): seq<JobNode> {
    match FirstPidMatch(JobsOf(ns), pid)
    case None => ns
    case Some(k) => RemoveAt(ns, k)
  }

  /** The pids of the table are pairwise different. */
  predicate DistinctPids(jobs: seq<Job>) {
    forall i, j :: 0 <= i < j < |jobs| ==> jobs[i].pid != jobs[j].pid
  }

  /**
   * Removing by the last job's pid removes the last job when no earlier job
   * shares its pid; otherwise the first earlier job with that pid goes and
   * the last job stays at the end.
   */
  lemma RemoveLastJobsPid(jobs: seq<Job>)
    requires jobs != []
    ensures var n, p := |jobs|, jobs[|jobs| - 1].pid;
      (forall i :: 0 <= i < n - 1 ==> jobs[i].pid != p) ==> RemoveFirstPid(jobs, p) == jobs[..n - 1]
    ensures var n, p := |jobs|, jobs[|jobs| - 1].pid;
      (exists i :: 0 <= i < n - 1 && jobs[i].pid == p) ==>
        var m := FirstPidMatch(jobs, p);
        m.Some? && m.value < n - 1 &&
        RemoveFirstPid(jobs, p) == RemoveAt(jobs, m.value) &&
        RemoveFirstPid(jobs, p)[n - 2] == jobs[n - 1]
  {
    var n, p := |jobs|, jobs[|jobs| - 1].pid;
    if forall i :: 0 <= i < n - 1 ==> jobs[i].pid != p {
      FirstPidMatchAt(jobs, p, n - 1);
    }
  }

  /** The first line of `printf("[%d] %s\t%s\n", ...)` in printJobsList. */
  function JobLine(job: Job): string {
    "[" + Itoa(job.pid) + "] " + (if job.state == 0 then "Running" else "Stopped") + "\t" + job.command + "\n"
  }

  const NoBackgroundJobs: string := "No background jobs.\n"

  /** The notice of bringToForeground: the table's size, then the command. */
  function DoneLine(count: int, command: string): string {
    "[" + Itoa(count) + "]+  Done\t\t" + command + "\n"
  }

  function NotFoundLine(identifier: string): string {
    "Job with identifier " + identifier + " not found.\n"
  }

  /** A job line names the job's pid: `atoi` after the bracket reads it back. */
  lemma JobLineShowsPid(job: Job)
    ensures Atoi(JobLine(job)[1..]) == job.pid
  {
    var rest := "] " + (if job.state == 0 then "Running" else "Stopped") + "\t" + job.command + "\n";
    assert JobLine(job)[1..] == Itoa(job.pid) + rest;
    AtoiItoa(job.pid, rest);
  }

  /** A job line never reads as the empty-table message, so printJobs' two outputs are told apart. */
  lemma JobLineIsNotNoJobsMessage(job: Job)
    ensures JobLine(job) != NoBackgroundJobs
  {
    assert JobLine(job)[0] == '[';
    assert NoBackgroundJobs[0] == 'N';
  }

  /**
   * The list edit of updateJobList, given the `waitpid` result of each job
   * in list order: 0 keeps the job, -1 aborts the shell (`None`), anything
   * else drops the job.
   */
  function Reconcile(jobs: seq<Job>, results: seq<int>): Option<seq<Job>>
    requires |results| == |jobs|
  {
    if jobs == [] then Some([])
    else if results[0] == -1 then None
    else match Reconcile(jobs[1..], results[1..])
      case None => None
      case Some(rest) => Some(if results[0] == 0 then [jobs[0]] + rest else rest)
  }

  /** The positions whose poll result is 0, in increasing order. */
  function StillRunning(results: seq<int>): (idx: seq<nat>)
    ensures forall p :: 0 <= p < |idx| ==> idx[p] < |results|
  {
    if results == [] then []
    else
      var shifted := Shift(StillRunning(results[1..]));
      if results[0] == 0 then [0] + shifted else shifted
  }

  /** Each position one further on. */
  function Shift(idx: seq<nat>): (r: seq<nat>)
    ensures |r| == |idx| && forall p :: 0 <= p < |r| ==> r[p] == idx[p] + 1
  {
    seq(|idx|, p requires 0 <= p < |idx| => idx[p] + 1)
  }

  /** Every position StillRunning lists has result 0. */
  lemma {:induction false} StillRunningOnlyZeros(results: seq<int>)
    ensures forall p :: 0 <= p < |StillRunning(results)| ==> results[StillRunning(results)[p]] == 0
  {
    if results != [] {
      StillRunningOnlyZeros(results[1..]);
    }
  }

  /** StillRunning lists its positions in increasing order, so each once. */
  lemma {:induction false} StillRunningIncreasing(results: seq<int>)
    ensures forall p, q :: 0 <= p < q < |StillRunning(results)| ==> StillRunning(results)[p] < StillRunning(results)[q]
  {
    if results != [] {
      StillRunningIncreasing(results[1..]);
    }
  }

  /** Every position whose result is 0 is listed by StillRunning. */
  lemma {:induction false} StillRunningAllZeros(results: seq<int>, k: nat)
    requires k < |results| && results[k] == 0
    ensures k in StillRunning(results)
  {
    var rest := StillRunning(results[1..]);
    var shifted := Shift(rest);
    assert StillRunning(results) == if results[0] == 0 then [0] + shifted else shifted;
    if k > 0 {
      StillRunningAllZeros(results[1..], k - 1);
      var p :| 0 <= p < |rest| && rest[p] == k - 1;
      assert shifted[p] == k;
    }
  }

  /**
   * updateJobList aborts exactly when some poll fails; otherwise the
   * survivors are the jobs still running, in their original order.
   */
  lemma {:induction false} ReconcileKeepsRunningJobsInOrder(jobs: seq<Job>, results: seq<int>)
    requires |results| == |jobs|
    ensures Reconcile(jobs, results).None? <==> -1 in results
    ensures Reconcile(jobs, results).Some? ==>
      var idx := StillRunning(results);
      var r := Reconcile(jobs, results).value;
      |r| == |idx| && forall p :: 0 <= p < |r| ==> r[p] == jobs[idx[p]]
  {
    if jobs != [] {
      ReconcileKeepsRunningJobsInOrder(jobs[1..], results[1..]);
      assert -1 in results <==> results[0] == -1 || -1 in results[1..] by {
        assert results == [results[0]] + results[1..];
      }
      if results[0] != -1 && Reconcile(jobs[1..], results[1..]).Some? {
        ReconcileConsKeepsOrder(jobs, results);
      }
    }
  }

  /** The inductive step of ReconcileKeepsRunningJobsInOrder: one more poll in front. */
  lemma ReconcileConsKeepsOrder(jobs: seq<Job>, results: seq<int>)
    requires |results| == |jobs| > 0 && results[0] != -1
    requires Reconcile(jobs[1..], results[1..]).Some?
    requires var idx, r := StillRunning(results[1..]), Reconcile(jobs[1..], results[1..]).value;
      |r| == |idx| && forall p :: 0 <= p < |r| ==> r[p] == jobs[1..][idx[p]]
    ensures Reconcile(jobs, results).Some?
    ensures var idx, r := StillRunning(results), Reconcile(jobs, results).value;
      |r| == |idx| && forall p :: 0 <= p < |r| ==> r[p] == jobs[idx[p]]
  {
    var rest := Reconcile(jobs[1..], results[1..]).value;
    var shifted := Shift(StillRunning(results[1..]));
    var r, idx := Reconcile(jobs, results).value, StillRunning(results);
    if results[0] == 0 {
      assert r == [jobs[0]] + rest && idx == [0] + shifted;
      forall p | 0 <= p < |r|
        ensures r[p] == jobs[idx[p]]
      {
        if p > 0 {
          assert r[p] == rest[p - 1] && idx[p] == shifted[p - 1];
        }
      }
    } else {
      assert r == rest && idx == shifted;
    }
  }

  /** Interactive commands that bringToForeground interrupts instead of awaiting. */
  predicate InterruptedInForeground(command: string) {
    command == "cat" || command == "wc"
  }

  /** What bringToForeground does to the processes. */
  datatype Action =
    | NoAction
    | Interrupt(target: int)   // kill(target, SIGINT); a negative target names a process group
    | AwaitExit(pid: int)      // waitpid(pid, NULL, 0)

  /** Everything bringToForeground does: the action, what it prints and the new table. */
  datatype Foreground = Foreground(action: Action, lines: seq<string>, jobs: seq<Job>)

  /** The first job whose pid is `pid` or whose command is `identifier`. */
  function FindJob(jobs: seq<Job>, pid: int, identifier: string): (r: Option<nat>)
    ensures r.Some? ==> r.value < |jobs| && (jobs[r.value].pid == pid || jobs[r.value].command == identifier)
    ensures r.Some? ==> forall j :: 0 <= j < r.value ==> jobs[j].pid != pid && jobs[j].command != identifier
    ensures r.None? ==> forall j :: 0 <= j < |jobs| ==> jobs[j].pid != pid && jobs[j].command != identifier
  {
    if jobs == [] then None
    else if jobs[0].pid == pid || jobs[0].command == identifier then Some(0)
    else match FindJob(jobs[1..], pid, identifier)
      case None => None
      case Some(k) => Some(k + 1)
  }

  /**
   * bringToForeground. Without an identifier it takes the last job and
   * removes the first job with that job's pid; with one it takes and
   * removes the first job matching `atoi(identifier)` or the identifier
   * itself. A `cat` or `wc` job is sent SIGINT through the group of the
   * pid it was looked up by (for an identifier, `atoi(identifier)`);
   * otherwise it is awaited and reported with the table's size before the
   * removal.
   */
  function ForegroundOf(jobs: seq<Job>, identifier: Option<string>): Foreground {
    match identifier
    case None => ForegroundLast(jobs)
    case Some(id) => ForegroundNamed(jobs, id, Atoi(id))
  }

  /** bringToForeground without an identifier. */
  function ForegroundLast(jobs: seq<Job>): Foreground {
    if jobs == [] then Foreground(NoAction, [NoBackgroundJobs], jobs)
    else
      var last := jobs[|jobs| - 1];
      var jobs' := RemoveFirstPid(jobs, last.pid);
      if InterruptedInForeground(last.command) then Foreground(Interrupt(-last.pid), [], jobs')
      else Foreground(AwaitExit(last.pid), [DoneLine(|jobs|, last.command)], jobs')
  }

  /** bringToForeground with the identifier `id`, which `atoi` reads as `pid`. */
  function ForegroundNamed(jobs: seq<Job>, id: string, pid: int): Foreground {
    match FindJob(jobs, pid, id)
    case None => Foreground(NoAction, [NotFoundLine(id)], jobs)
    case Some(k) => ForegroundAt(jobs, k, pid)
  }

  /** bringToForeground on the job at `k`, found with the pid `pid`. */
  function ForegroundAt(jobs: seq<Job>, k: nat, pid: int): Foreground
    requires k < |jobs|
  {
    if InterruptedInForeground(jobs[k].command) then Foreground(Interrupt(-pid), [], RemoveAt(jobs, k))
    else Foreground(AwaitExit(jobs[k].pid), [DoneLine(|jobs|, jobs[k].command)], RemoveAt(jobs, k))
  }

  /**
   * With an identifier, exactly one job leaves the table when one matches
   * and none otherwise, with a not-found message; the rest keep their order.
   */
  lemma ForegroundByIdentifierRemovesMatch(jobs: seq<Job>, id: string)
    ensures var f := ForegroundOf(jobs, Some(id));
      match FindJob(jobs, Atoi(id), id)
      case None => f.jobs == jobs && f.lines == [NotFoundLine(id)] && f.action == NoAction
      case Some(k) => f.jobs == jobs[..k] + jobs[k + 1..] && f.action != NoAction
  {
  }

  /**
   * Without an identifier, a table of pairwise different pids loses its
   * last job, which is either awaited or interrupted through its own group.
   */
  lemma ForegroundWithoutIdentifierRemovesLast(jobs: seq<Job>)
    requires DistinctPids(jobs)
    ensures var f := ForegroundOf(jobs, None);
      if jobs == [] then f.jobs == [] && f.lines == [NoBackgroundJobs]
      else (f.jobs == jobs[..|jobs| - 1] &&
            f.action in {Interrupt(-jobs[|jobs| - 1].pid), AwaitExit(jobs[|jobs| - 1].pid)})
  {
    if jobs != [] {
      RemoveLastJobsPid(jobs);
    }
  }

  /**
   * Looked up by command name, a `cat` job is interrupted through
   * `kill(0, SIGINT)`, since `atoi("cat")` is 0: the signal goes to the
   * shell's own process group, not to the job's.
   */
  lemma InterruptByNameTargetsOwnGroup(jobs: seq<Job>)
    requires forall k :: 0 <= k < |jobs| ==> jobs[k].pid != 0
    requires exists k :: 0 <= k < |jobs| && jobs[k].command == "cat"
    ensures ForegroundOf(jobs, Some("cat")).action == Interrupt(0)
  {
    AtoiOfNonNumeric("cat");
  }

  /** The record after position `k`, `null` after the last. */
  function SuccessorIn(ns: seq<JobNode>, k: nat): JobNode?
    requires k < |ns|
  {
    if k + 1 < |ns| then ns[k + 1] else null
  }

  /** The `next` fields of `ns` chain them in order, and the last ends the list. */
  ghost predicate Linked(ns: seq<JobNode>)
    reads ns
  {
    forall k {:trigger ns[k].next} :: 0 <= k < |ns| ==> ns[k].next == SuccessorIn(ns, k)
  }

  /**
   * A chain ending in `null` visits no record twice: two equal records
   * would have equal successors all the way to the end of the chain.
   */
  lemma {:induction false} LinkedNodesDistinct(ns: seq<JobNode>, i: nat, j: nat)
    requires Linked(ns) && i < j < |ns|
    ensures ns[i] != ns[j]
    decreases |ns| - j
  {
    if ns[i] == ns[j] {
      assert ns[i].next == SuccessorIn(ns, i) && ns[j].next == SuccessorIn(ns, j);
      if j + 1 < |ns| {
        LinkedNodesDistinct(ns, i + 1, j + 1);
      }
    }
  }

  /** The caller's `jobList` pointer and the list it heads. */
  class JobList {
    var head: JobNode?
    ghost var nodes: seq<JobNode>
    /** Every record the table has held; an unlinked record stays here. */
    ghost var Repr: set<JobNode>

    /** `head` starts the chain of `next` fields through `nodes`. */
    ghost predicate Valid()
      reads this, Repr
    {
      (forall k :: 0 <= k < |nodes| ==> nodes[k] in Repr) &&
      (head == if nodes == [] then null else nodes[0]) &&
      Linked(nodes)
    }

    ghost function Jobs(): seq<Job>
      reads this
    {
      JobsOf(nodes)
    }

    /** An empty table: `struct Job* jobList = NULL`. */
    constructor ()
      ensures Valid() && nodes == []
    {
      head := null;
      nodes := [];
      Repr := {};
    }

    /** addJob: walks to the last record and links the new one after it. */
    method AddJob(newJob: JobNode)
      requires Valid() && newJob !in nodes && newJob.next == null
      modifies this, Repr
      ensures Valid() && Repr == old(Repr) + {newJob}
      ensures nodes == old(nodes) + [newJob]
      ensures Jobs() == old(Jobs()) + [newJob.Value()]
    {
      ghost var ns := nodes;
      if head == null {
        head := newJob;
      } else {
        var current := head;
        ghost var i := 0;
        while current.next != null
          invariant 0 <= i < |nodes| && current == nodes[i]
          decreases |nodes| - i
        {
          current := current.next;
          i := i + 1;
        }
        forall j | 0 <= j < i
          ensures ns[j] != current
        {
          LinkedNodesDistinct(ns, j, i);
        }
        current.next := newJob;
      }
      nodes := ns + [newJob];
      Repr := Repr + {newJob};
      forall j | 0 <= j < |nodes|
        ensures nodes[j].next == SuccessorIn(nodes, j)
      {
        if j < |ns| {
          assert nodes[j] == ns[j];
        }
      }
    }

    /** getJobCount: the length of the list. */
    method JobCount() returns (count: int)
      requires Valid()
      ensures count == |Jobs()|
    {
      count := 0;
      var current := head;
      while current != null
        invariant 0 <= count <= |nodes|
        invariant current == if count < |nodes| then nodes[count] else null
        decreases |nodes| - count
      {
        count := count + 1;
        current := current.next;
      }
    }

    /**
     * Removes the record at position `k`, whose predecessor is `prev`
     * (`null` for the first record): the `*jobList = current->next` or
     * `prev->next = current->next` step shared by the removals.
     */
    method Unlink(prev: JobNode?, current: JobNode, ghost k: nat)
      requires Valid() && k < |nodes| && current == nodes[k]
      requires prev == if k == 0 then null else nodes[k - 1]
      modifies this, prev
      ensures Valid() && Repr == old(Repr)
      ensures nodes == RemoveAt(old(nodes), k)
      ensures Jobs() == RemoveAt(old(Jobs()), k)
    {
      ghost var ns := nodes;
      forall j | 0 <= j < |ns| && j + 1 != k
        ensures ns[j] != prev
      {
        if prev != null {
          if j < k - 1 {
            LinkedNodesDistinct(ns, j, k - 1);
          } else {
            LinkedNodesDistinct(ns, k - 1, j);
          }
        }
      }
      if prev == null {
        head := current.next;
      } else {
        prev.next := current.next;
      }
      JobsOfRemoveAt(ns, k);
      nodes := RemoveAt(ns, k);
      forall j | 0 <= j < |nodes|
        ensures nodes[j].next == SuccessorIn(nodes, j)
      {
        if j < k {
          assert nodes[j] == ns[j];
        } else {
          assert nodes[j] == ns[j + 1];
        }
      }
    }

    /** removeFromJobList: unlinks the first record whose pid matches, if any. */
    method RemoveFromJobList(pid: int)
      requires Valid()
      modifies this, Repr
      ensures Valid() && Repr == old(Repr)
      ensures nodes == NodesWithoutFirstPid(old(nodes), pid)
      ensures Jobs() == RemoveFirstPid(old(Jobs()), pid)
    {
      var current := head;
      var prev: JobNode? := null;
      ghost var i := 0;
      while current != null
        invariant Valid() && nodes == old(nodes) && Repr == old(Repr)
        invariant 0 <= i <= |nodes|
        invariant current == if i < |nodes| then nodes[i] else null
        invariant prev == if i == 0 then null else nodes[i - 1]
        invariant forall j :: 0 <= j < i ==> nodes[j].pid != pid
        decreases |nodes| - i
      {
        if current.pid == pid {
          FirstPidMatchAt(Jobs(), pid, i);
          Unlink(prev, current, i);
          return;
        }
        prev := current;
        current := current.next;
        i := i + 1;
      }
      assert FirstPidMatch(Jobs(), pid) == None;
    }

    /** printJobsList: one line per job, in list order. */
    method PrintJobsList() returns (lines: seq<string>)
      requires Valid()
      ensures |lines| == |Jobs()|
      ensures forall k :: 0 <= k < |lines| ==> lines[k] == JobLine(Jobs()[k])
    {
      lines := [];
      var current := head;
      ghost var i := 0;
      while current != null
        invariant 0 <= i <= |nodes| && |lines| == i
        invariant current == if i < |nodes| then nodes[i] else null
        invariant forall k :: 0 <= k < i ==> lines[k] == JobLine(nodes[k].Value())
        decreases |nodes| - i
      {
        lines := lines + [JobLine(current.Value())];
        current := current.next;
        i := i + 1;
      }
    }

    /** printJobs: the empty-table message, or the job lines. */
    method PrintJobs() returns (lines: seq<string>)
      requires Valid()
      ensures lines == [NoBackgroundJobs] <==> Jobs() == []
      ensures Jobs() != [] ==> |lines| == |Jobs()| && forall k :: 0 <= k < |lines| ==> lines[k] == JobLine(Jobs()[k])
    {
      if head == null {
        lines := [NoBackgroundJobs];
      } else {
        lines := PrintJobsList();
        if lines == [NoBackgroundJobs] {
          JobLineIsNotNoJobsMessage(Jobs()[0]);
        }
      }
    }

    /**
     * updateJobList: polls each job in list order (`results[k]` is what
     * `waitpid` returns for the k-th job) and unlinks the finished ones.
     * A failed poll ends the shell, reported as `exited`.
     */
    method UpdateJobList(results: seq<int>) returns (exited: bool)
      requires Valid() && |results| == |nodes|
      modifies this, Repr
      ensures Valid() && Repr == old(Repr)
      ensures exited <==> Reconcile(old(Jobs()), results).None?
      ensures !exited ==> Jobs() == Reconcile(old(Jobs()), results).value
    {
      ghost var all, jobs := nodes, Jobs();
      ghost var kept: seq<JobNode> := [];
      var i := 0;  // the number of polls so far
      var current := head;
      var prev: JobNode? := null;
      PollingStarts(all, jobs, results);
      while current != null
        invariant Polling(all, jobs, results, kept, i, current, prev) && Repr == old(Repr)
        decreases |all| - i
      {
        var result := results[i];
        if result == -1 {
          ReconcileAbortsAt(jobs, results, i);
          exited := true;
          return;
        }
        prev, current, kept := PollOne(prev, current, results, i, all, jobs, kept);
        i := i + 1;
      }
      exited := false;
      PollingEnds(all, jobs, results, kept, i, prev);
    }

    /**
     * The state of updateJobList after `i` polls: `kept` are the records
     * kept so far, `current` the next one to poll and `prev` the last kept.
     */
    ghost predicate Polling(all: seq<JobNode>, jobs: seq<Job>, results: seq<int>, kept: seq<JobNode>,
                            i: int, current: JobNode?, prev: JobNode?)
      reads this, Repr
    {
      Valid() && |results| == |all| && jobs == JobsOf(all) && 0 <= i <= |all| &&
      nodes == kept + all[i..] &&
      current == (if i < |all| then all[i] else null) &&
      prev == (if kept == [] then null else kept[|kept| - 1]) &&
      Reconcile(jobs, results) == Then(JobsOf(kept), Reconcile(jobs[i..], results[i..]))
    }

    lemma PollingStarts(all: seq<JobNode>, jobs: seq<Job>, results: seq<int>)
      requires Valid() && all == nodes && jobs == Jobs() && |results| == |nodes|
      ensures Polling(all, jobs, results, [], 0, head, null)
    {
      assert all[0..] == all && jobs[0..] == jobs && results[0..] == results;
      assert JobsOf([]) == [];
      ThenEmpty(Reconcile(jobs, results));
    }

    lemma PollingEnds(all: seq<JobNode>, jobs: seq<Job>, results: seq<int>, kept: seq<JobNode>, i: int, prev: JobNode?)
      requires Polling(all, jobs, results, kept, i, null, prev)
      ensures Reconcile(jobs, results) == Some(JobsOf(kept)) && nodes == kept
    {
      assert all[i..] == [] && jobs[i..] == [] && results[i..] == [];
      assert JobsOf(kept) + [] == JobsOf(kept);
    }

    /**
     * One poll of updateJobList on the record `current`, which follows the
     * kept records: a zero result keeps it; any other result unlinks it,
     * through removeFromJobList when it is first in the list and by
     * relinking `prev` otherwise. Returns the new predecessor and the record
     * to poll next.
     */
    method PollOne(prev: JobNode?, current: JobNode, results: seq<int>, i: int,
                   ghost all: seq<JobNode>, ghost jobs: seq<Job>, ghost kept: seq<JobNode>)
      returns (prev': JobNode?, next: JobNode?, ghost kept': seq<JobNode>)
      requires Polling(all, jobs, results, kept, i, current, prev) && results[i] != -1
      modifies this, Repr
      ensures Polling(all, jobs, results, kept', i + 1, next, prev') && Repr == old(Repr)
      ensures kept' == kept + if results[i] == 0 then [current] else []
    {
      if results[i] == 0 {
        KeepPolled(all, jobs, results, kept, i, current, prev);
        prev', next, kept' := current, current.next, kept + [current];
      } else {
        prev', kept' := prev, kept;
        ghost var rest := all[i..];
        assert nodes[|kept|] == current;
        next := RemovePolled(prev, current, kept, rest);
        assert rest[1..] == all[i + 1..];
        PollingNext(all, jobs, results, kept, kept', i, next, prev');
      }
    }

    /** A poll with result 0 only moves past the record it polled. */
    lemma KeepPolled(all: seq<JobNode>, jobs: seq<Job>, results: seq<int>, kept: seq<JobNode>,
                     i: int, current: JobNode, prev: JobNode?)
      requires Polling(all, jobs, results, kept, i, current, prev) && results[i] == 0
      ensures Polling(all, jobs, results, kept + [current], i + 1, current.next, current)
    {
      assert nodes[|kept|] == current;
      assert current.next == SuccessorIn(nodes, |kept|);
      assert all[i..] == [current] + all[i + 1..];
      PollAdvances(jobs, results, all, i, kept, kept + [current]);
    }

    /** The state after the `i`-th poll, from the records it leaves. */
    lemma PollingNext(all: seq<JobNode>, jobs: seq<Job>, results: seq<int>, kept: seq<JobNode>, kept': seq<JobNode>,
                      i: int, next: JobNode?, prev': JobNode?)
      requires Valid() && |results| == |all| && jobs == JobsOf(all) && 0 <= i < |all| && results[i] != -1
      requires Reconcile(jobs, results) == Then(JobsOf(kept), Reconcile(jobs[i..], results[i..]))
      requires kept' == kept + if results[i] == 0 then [all[i]] else []
      requires nodes == kept' + all[i + 1..]
      requires next == (if i + 1 < |all| then all[i + 1] else null)
      requires prev' == (if kept' == [] then null else kept'[|kept'| - 1])
      ensures Polling(all, jobs, results, kept', i + 1, next, prev')
    {
      PollAdvances(jobs, results, all, i, kept, kept');
    }

    /** The removal branch of PollOne. */
    method RemovePolled(prev: JobNode?, current: JobNode, ghost kept: seq<JobNode>, ghost rest: seq<JobNode>)
      returns (next: JobNode?)
      requires Valid() && nodes == kept + rest && rest != [] && current == rest[0]
      requires prev == if kept == [] then null else kept[|kept| - 1]
      modifies this, Repr
      ensures Valid() && Repr == old(Repr)
      ensures nodes == kept + rest[1..]
      ensures next == if |rest| > 1 then rest[1] else null
    {
      assert nodes[|kept|] == current;
      if prev == null {
        FirstPidMatchAt(Jobs(), current.pid, 0);
        RemoveFromJobList(current.pid);
        RemoveAtAfterPrefix([], rest);
        next := head;
      } else {
        assert prev == nodes[|kept| - 1];
        Unlink(prev, current, |kept|);
        RemoveAtAfterPrefix(kept, rest);
        next := prev.next;
      }
    }

    /** bringToForeground: the branch on whether an identifier was given. */
    method BringToForeground(identifier: Option<string>) returns (action: Action, lines: seq<string>)
      requires Valid()
      modifies this, Repr
      ensures Valid() && Repr == old(Repr)
      ensures Foreground(action, lines, Jobs()) == ForegroundOf(old(Jobs()), identifier)
    {
      if identifier.None? {
        action, lines := ForegroundLastJob();
      } else {
        action, lines := ForegroundByIdentifier(identifier.value);
      }
    }

    /** bringToForeground without an identifier: the last job. */
    method ForegroundLastJob() returns (action: Action, lines: seq<string>)
      requires Valid()
      modifies this, Repr
      ensures Valid() && Repr == old(Repr)
      ensures Foreground(action, lines, Jobs()) == ForegroundLast(old(Jobs()))
    {
      var current := head;
      var lastJob: JobNode? := null;
      ghost var i := 0;
      while current != null
        invariant 0 <= i <= |nodes|
        invariant current == if i < |nodes| then nodes[i] else null
        invariant lastJob == if i == 0 then null else nodes[i - 1]
        decreases |nodes| - i
      {
        lastJob := current;
        current := current.next;
        i := i + 1;
      }
      if lastJob != null {
        var pid := lastJob.pid;
        if lastJob.command == "cat" || lastJob.command == "wc" {
          action, lines := Interrupt(-pid), [];
        } else {
          action := AwaitExit(pid);
          var count := JobCount();
          lines := [DoneLine(count, lastJob.command)];
        }
        RemoveFromJobList(pid);
      } else {
        action, lines := NoAction, [NoBackgroundJobs];
      }
    }

    /** bringToForeground with an identifier: the first job it names. */
    method ForegroundByIdentifier(id: string) returns (action: Action, lines: seq<string>)
      requires Valid()
      modifies this, Repr
      ensures Valid() && Repr == old(Repr)
      ensures Foreground(action, lines, Jobs()) == ForegroundOf(old(Jobs()), Some(id))
    {
      var pid := Atoi(id);
      var prev, current, i := FindByIdentifier(pid, id);
      if current == null {
        action, lines := NoAction, [NotFoundLine(id)];
      } else {
        action, lines := ForegroundJobAt(prev, current, pid, i);
      }
    }

    /**
     * The search of bringToForeground: the first record whose pid is `pid`
     * or whose command is `id`, with its predecessor; `null` when none is.
     */
    method FindByIdentifier(pid: int, id: string) returns (prev: JobNode?, current: JobNode?, ghost i: nat)
      requires Valid()
      ensures current == null <==> FindJob(Jobs(), pid, id) == None
      ensures current != null ==> FindJob(Jobs(), pid, id) == Some(i) && i < |nodes| && current == nodes[i]
      ensures current != null ==> prev == if i == 0 then null else nodes[i - 1]
    {
      current := head;
      prev := null;
      i := 0;
      while current != null && current.pid != pid && current.command != id
        invariant 0 <= i <= |nodes|
        invariant current == if i < |nodes| then nodes[i] else null
        invariant prev == if i == 0 then null else nodes[i - 1]
        invariant forall j :: 0 <= j < i ==> nodes[j].pid != pid && nodes[j].command != id
        decreases |nodes| - i
      {
        prev := current;
        current := current.next;
        i := i + 1;
      }
      if current != null {
        FindJobAt(Jobs(), pid, id, i);
      }
    }

    /**
     * The found branch of bringToForeground with an identifier: the job at
     * `k` is interrupted or awaited and reported, then unlinked.
     */
    method ForegroundJobAt(prev: JobNode?, current: JobNode, pid: int, ghost k: nat)
      returns (action: Action, lines: seq<string>)
      requires Valid() && k < |nodes| && current == nodes[k]
      requires prev == if k == 0 then null else nodes[k - 1]
      modifies this, Repr
      ensures Valid() && Repr == old(Repr)
      ensures Foreground(action, lines, Jobs()) == ForegroundAt(old(Jobs()), k, pid)
    {
      if current.command == "cat" || current.command == "wc" {
        action, lines := Interrupt(-pid), [];
      } else {
        action := AwaitExit(current.pid);
        var count := JobCount();
        lines := [DoneLine(count, current.command)];
      }
      Unlink(prev, current, k);
    }
  }

  /** One poll of updateJobList that does not fail moves the job to the kept ones or drops it. */
  lemma ReconcileStep(jobs: seq<Job>, results: seq<int>, i: nat, prefix: seq<Job>)
    requires |results| == |jobs| && i < |jobs| && results[i] != -1
    requires Reconcile(jobs, results) == Then(prefix, Reconcile(jobs[i..], results[i..]))
    ensures Reconcile(jobs, results)
         == Then(prefix + (if results[i] == 0 then [jobs[i]] else []), Reconcile(jobs[i + 1..], results[i + 1..]))
  {
    var js, rs := jobs[i..], results[i..];
    assert js[1..] == jobs[i + 1..] && rs[1..] == results[i + 1..];
    assert js[0] == jobs[i] && rs[0] == results[i];
    match Reconcile(jobs[i + 1..], results[i + 1..])
    case None =>
      assert Reconcile(js, rs) == None;
    case Some(rest) =>
      assert Reconcile(js, rs) == Some(if results[i] == 0 then [jobs[i]] + rest else rest);
      assert prefix + ([jobs[i]] + rest) == prefix + [jobs[i]] + rest;
      assert prefix + [] == prefix;
  }

  lemma ThenEmpty(r: Option<seq<Job>>)
    ensures Then([], r) == r
  {
    match r
    case None =>
    case Some(rest) =>
      assert [] + rest == rest;
  }

  /** The reconciled table after one more successful poll. */
  lemma PollAdvances(jobs: seq<Job>, results: seq<int>, all: seq<JobNode>, i: nat, kept: seq<JobNode>, kept': seq<JobNode>)
    requires |results| == |all| && jobs == JobsOf(all) && i < |all| && results[i] != -1
    requires Reconcile(jobs, results) == Then(JobsOf(kept), Reconcile(jobs[i..], results[i..]))
    requires kept' == kept + if results[i] == 0 then [all[i]] else []
    ensures Reconcile(jobs, results) == Then(JobsOf(kept'), Reconcile(jobs[i + 1..], results[i + 1..]))
  {
    ReconcileStep(jobs, results, i, JobsOf(kept));
    assert jobs[i] == all[i].Value();
    if results[i] == 0 {
      JobsOfAppend(kept, all[i]);
    } else {
      assert kept' == kept;
    }
  }

  /** A failed poll aborts the rest of the walk. */
  lemma ReconcileAbortsAt(jobs: seq<Job>, results: seq<int>, i: nat)
    requires |results| == |jobs| && i < |jobs| && results[i] == -1
    ensures Reconcile(jobs[i..], results[i..]) == None
  {
  }

  /** The first job named is the one with no named job before it. */
  lemma FindJobAt(jobs: seq<Job>, pid: int, id: string, i: nat)
    requires i < |jobs| && (jobs[i].pid == pid || jobs[i].command == id)
    requires forall j :: 0 <= j < i ==> jobs[j].pid != pid && jobs[j].command != id
    ensures FindJob(jobs, pid, id) == Some(i)
  {
  }

  /** `prefix` in front of a reconciled table; an abort stays an abort. */
  function Then(prefix: seq<Job>, r: Option<seq<Job>>): Option<seq<Job>> {
    match r
    case None => None
    case Some(rest) => Some(prefix + rest)
  }
}
