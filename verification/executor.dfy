/**
 * The decisions of bash_func.c's executors, with the processes themselves
 * left out: `executeCommand` picks an executor from the chain's head flag
 * and the first operator of the line, and the `&&`, `||` and `;`
 * executors walk the chain, running one command per node until their stop
 * rule fires. The exit status that `wait` would report for the k-th
 * command run is the input `statuses[k]`.
 */
module Executor {
  import opened Wrappers
  import opened Parser

  /** The branches of `executeCommand`. */
  datatype Executor =
    | NoCommand    // a null chain: nothing happens
    | Pipeline     // executePipeline
    | Background   // the empty `&` branch
    | OrChain      // executeOrOperator
    | AndChain     // executeAndOperator
    | SeqChain     // executeSeqOperator
    | Single       // the default branch: one fork, exec and wait

  /** The executor that a flag code selects on its own. */
  function ExecutorFor(code: int): Executor {
    if code == PipeFlag then Pipeline
    else if code == BackgroundFlag then Background
    else if code == OrFlag then OrChain
    else if code == AndFlag then AndChain
    else if code == SeqFlag then SeqChain
    else Single
  }

  /**
   * executeCommand's choice for a chain whose head carries `headFlag`
   * (`None` for a null chain): the codes are tried from 1 to 5, each
   * matching either `firstOperatorFlag` or the head's flag.
   */
  function SelectExecutor(headFlag: Option<int>, firstOperatorFlag: int): (e: Executor)
    ensures e == NoCommand <==> headFlag.None?
  {
    match headFlag
    case None => NoCommand
    case Some(flag) =>
      if firstOperatorFlag == PipeFlag || flag == PipeFlag then Pipeline
      else if firstOperatorFlag == BackgroundFlag || flag == BackgroundFlag then Background
      else if firstOperatorFlag == OrFlag || flag == OrFlag then OrChain
      else if firstOperatorFlag == AndFlag || flag == AndFlag then AndChain
      else if firstOperatorFlag == SeqFlag || flag == SeqFlag then SeqChain
      else Single
  }

  /**
   * The flag of the head of the chain parsed from `ws`, `None` when the
   * chain is null.
   */
  function HeadFlag(ws: seq<string>): (f: Option<int>)
    ensures f.None? <==> ws == []
  {
    if ws == [] then None else Some(NodeFlag(Codes(ws), 0))
  }

  /**
   * For a line parsed with `firstOperatorFlag` starting at 0, the head's
   * flag never overrides the first operator: the executor is the one the
   * first operator token selects, and the default branch when the line
   * holds no operator.
   */
  lemma DispatchFollowsFirstOperator(ws: seq<string>)
    ensures SelectExecutor(HeadFlag(ws), FirstOperatorFlag(ws, 0))
         == if ws == [] then NoCommand else ExecutorFor(FirstOperatorFlag(ws, 0))
    ensures ws != [] && (forall k :: 0 <= k < |ws| ==> OperatorCode(ws[k]) == 0)
         ==> SelectExecutor(HeadFlag(ws), FirstOperatorFlag(ws, 0)) == Single
  {
    if ws != [] {
      var cs := Codes(ws);
      CodeAt(ws, 0);
      if cs[0] == 0 {
        assert NodeFlag(cs, 0) == 0;
      } else {
        assert FirstOperatorIndex(cs, 0) == Some(0);
      }
      if forall k :: 0 <= k < |ws| ==> OperatorCode(ws[k]) == 0 {
        forall j | 0 <= j < |cs|
          ensures cs[j] == 0
        {
          CodeAt(ws, j);
        }
        assert FirstOperatorIndex(cs, 0) == None;
      }
    }
  }

  /** The chain executors' stop rules. */
  datatype ChainRule = And | Or | Seq

  /** Whether the executor leaves the chain after a command exits with `status`. */
  predicate StopsAfter(rule: ChainRule, status: int) {
    match rule
    case And => status != 0
    case Or => status == 0
    case Seq => false
  }

  /**
   * The number of commands an executor runs on a chain whose commands would
   * exit with `statuses`: one after another until one stops the walk.
   */
  function RunCount(rule: ChainRule, statuses: seq<int>): (n: nat)
    ensures n <= |statuses|
    ensures n == 0 <==> statuses == []
  {
    if statuses == [] then 0
    else if StopsAfter(rule, statuses[0]) then 1
    else 1 + RunCount(rule, statuses[1..])
  }

  /**
   * The stop rule stated outright: the commands run are a prefix of the
   * chain, none of them but the last stops the walk, and the walk ends
   * early only at a command that stops it.
   */
  lemma {:induction false} RunCountStopsAtFirstStop(rule: ChainRule, statuses: seq<int>)
    ensures forall k :: 0 <= k < RunCount(rule, statuses) - 1 ==> !StopsAfter(rule, statuses[k])
    ensures RunCount(rule, statuses) < |statuses| ==> StopsAfter(rule, statuses[RunCount(rule, statuses) - 1])
  {
    if statuses != [] && !StopsAfter(rule, statuses[0]) {
      RunCountStopsAtFirstStop(rule, statuses[1..]);
    }
  }

  /** `&&` runs commands up to and including the first that fails. */
  lemma AndRunsUntilFirstFailure(statuses: seq<int>)
    ensures var n := RunCount(And, statuses);
      (forall k :: 0 <= k < n - 1 ==> statuses[k] == 0) &&
      (n == |statuses| || statuses[n - 1] != 0)
  {
    RunCountStopsAtFirstStop(And, statuses);
  }

  /** `||` runs commands up to and including the first that succeeds. */
  lemma OrRunsUntilFirstSuccess(statuses: seq<int>)
    ensures var n := RunCount(Or, statuses);
      (forall k :: 0 <= k < n - 1 ==> statuses[k] != 0) &&
      (n == |statuses| || statuses[n - 1] == 0)
  {
    RunCountStopsAtFirstStop(Or, statuses);
  }

  /** `;` runs every command of the chain. */
  lemma {:induction false} SeqRunsAll(statuses: seq<int>)
    ensures RunCount(Seq, statuses) == |statuses|
  {
    if statuses != [] {
      SeqRunsAll(statuses[1..]);
    }
  }

  /** Success turned into failure and back. */
  function Flip(statuses: seq<int>): (r: seq<int>)
    ensures |r| == |statuses|
    ensures forall k :: 0 <= k < |r| ==> (r[k] == 0 <==> statuses[k] != 0)
  {
    seq(|statuses|, k requires 0 <= k < |statuses| => if statuses[k] == 0 then 1 else 0)
  }

  /** `||` on some statuses runs as many commands as `&&` on the flipped ones. */
  lemma {:induction false} OrIsAndOnFlippedStatuses(statuses: seq<int>)
    ensures RunCount(Or, statuses) == RunCount(And, Flip(statuses))
  {
    if statuses != [] {
      assert Flip(statuses)[1..] == Flip(statuses[1..]);
      OrIsAndOnFlippedStatuses(statuses[1..]);
    }
  }

  /** executeAndOperator: run, wait, and leave the walk on a non-zero status. */
  method ExecuteAndOperator(statuses: seq<int>) returns (ran: nat)
    ensures ran == RunCount(And, statuses)
  {
    ran := 0;
    var i := 0;
    while i < |statuses|
      invariant ran == i <= |statuses|
      invariant RunCount(And, statuses) == i + RunCount(And, statuses[i..])
    {
      ran := ran + 1;
      var status := statuses[i];
      if status != 0 {
        break;
      }
      assert statuses[i..][1..] == statuses[i + 1..];
      i := i + 1;
    }
  }

  /** executeOrOperator: run, wait, and leave the walk on a zero status. */
  method ExecuteOrOperator(statuses: seq<int>) returns (ran: nat)
    ensures ran == RunCount(Or, statuses)
  {
    ran := 0;
    var i := 0;
    while i < |statuses|
      invariant ran == i <= |statuses|
      invariant RunCount(Or, statuses) == i + RunCount(Or, statuses[i..])
    {
      ran := ran + 1;
      var status := statuses[i];
      if status == 0 {
        break;
      }
      assert statuses[i..][1..] == statuses[i + 1..];
      i := i + 1;
    }
  }

  /** executeSeqOperator: run and wait for every command, whatever it returns. */
  method ExecuteSeqOperator(statuses: seq<int>) returns (ran: nat)
    ensures ran == RunCount(Seq, statuses)
  {
    ran := 0;
    var i := 0;
    while i < |statuses|
      invariant ran == i <= |statuses|
      invariant RunCount(Seq, statuses) == i + RunCount(Seq, statuses[i..])
    {
      ran := ran + 1;
      assert statuses[i..][1..] == statuses[i + 1..];
      i := i + 1;
    }
  }
}
